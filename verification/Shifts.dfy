/** Division, remainder, multiplication and subtraction by powers of two. Bit shifts are division and
    multiplication by Pow2; an OR of disjoint bits is a sum. */
module Shifts {
  import opened Digits
  import opened Buffers
  import opened Powers
  import opened Karatsuba
  import opened MpInts
  import opened Signed

  /** Moves the run down by n digits; the low n digits are lost. */
  method DigitsDown(z: MpInt, n: nat)
    requires 1 <= z.used <= z.digits.Length && 0 < n < z.used && Clamped(Run(z.digits[..], 0, z.used))
    modifies z`used, z.digits
    ensures z.Valid() && z.used == old(z.used) - n
    ensures Run(z.digits[..], 0, z.used) == old(Run(z.digits[..], n, z.used - n))
  {
    hide Val;
    ghost var d := z.digits[..];
    var uz, to := z.used, 0;
    while n + to < uz
      invariant n + to <= uz
      invariant Run(z.digits[..], 0, to) == Run(d, n, to)
      invariant OnlyRun(d, z.digits[..], 0, to)
      modifies z.digits
    {
      RunGrows(z.digits[..], 0, to, z.digits[n + to]);
      assert Run(d, n, to + 1) == Run(d, n, to) + [z.digits[n + to]];
      z.digits[to] := z.digits[n + to];
      to := to + 1;
    }
    z.used := uz - n;
    assert Run(d, n, uz - n)[uz - n - 1] == Run(d, 0, uz)[uz - 1];
  }

  /** One digit of a right shift: what the digits above left over comes in at the top. */
  lemma {:induction false} BitsDownStep(x: digit, v: int, n: int, r: int, P: int, Q: int)
    requires P > 0 && Q > 0 && P * Q == RADIX && v == P * n + r && 0 <= r < P
    ensures 0 <= x / P + r * Q < RADIX
    ensures x + RADIX * v == P * (x / P + r * Q + RADIX * n) + x % P
  {
    assert x == P * (x / P) + x % P;
    assert x / P < Q by {
      if x / P >= Q {
        MulMono(Q, x / P, P);
        MulComm(P, Q);
        MulComm(P, x / P);
        assert false;
      }
    }
    MulMono(0, r, Q);
    MulMono(r, P - 1, Q);
    MulDist(P, -1, Q);
    var h, k := x / P, r * Q;
    MulAssoc(P, r, Q);
    MulAssoc(r, P, Q);
    MulComm(P, r);
    assert P * k == RADIX * r;
    MulAssoc(RADIX, P, n);
    MulAssoc(P, RADIX, n);
    MulComm(P, RADIX);
    MulDist(h + k, RADIX * n, P);
    MulDist(h, k, P);
    MulComm(P, h + k + RADIX * n);
    MulComm(P, h);
    MulComm(P, k);
    MulComm(P, RADIX * n);
  }

  lemma {:induction false} LowBits(d: digit, P: int, Q: int)
    requires P > 0 && Q > 0 && P * Q == RADIX
    ensures (d * Q) % RADIX == (d % P) * Q
  {
    var h, r: int := d / P, d % P;
    MulDist(P * h, r, Q);
    MulComm(P, h);
    MulAssoc(h, P, Q);
    MulMono(0, r, Q);
    MulMono(r, P - 1, Q);
    MulDist(P, -1, Q);
    DivUnique(d * Q, RADIX, h, r * Q);
  }

  lemma {:induction false} ValCons(s: seq<int>)
    requires s != []
    ensures Val(s) == s[0] + RADIX * Val(s[1..])
  {
  }

  /** Shifts a run right by 0 < nbits < 32 bits, from the top digit down. */
  method BitsDown(z: MpInt, nbits: nat)
    requires z.Valid() && 0 < nbits < 32
    modifies z.digits
    ensures old(z.Mag()) == Pow2(nbits) * z.Mag() + old(z.digits[0]) % Pow2(nbits)
    ensures OnlyRun(old(z.digits[..]), z.digits[..], 0, z.used)
  {
    hide Val, Pow2;
    var P, Q := Pow2(nbits), Pow2(32 - nbits);
    Pow2Part(nbits);
    ghost var S := Run(z.digits[..], 0, z.used);
    ValZeros(S[z.used..]);
    ValZeros(Run(z.digits[..], z.used, 0));
    var d: digit := 0;
    var k := z.used;
    while k > 0
      invariant 0 <= k <= z.used
      invariant d == At(S, k)
      invariant Val(S[k..]) == P * Val(Run(z.digits[..], k, z.used - k)) + d % P
      invariant OnlyRun(old(z.digits[..]), z.digits[..], k, z.used - k)
    {
      k := k - 1;
      var save := z.digits[k];
      assert save == S[k];
      ghost var v, n := Val(S[k + 1..]), Val(Run(z.digits[..], k + 1, z.used - k - 1));
      LowBits(d, P, Q);
      BitsDownStep(save, v, n, d % P, P, Q);
      ghost var D := z.digits[..];
      z.digits[k] := save / P + (d * Q) % RADIX;
      SameRun(D, z.digits[..], k + 1, z.used - k - 1, k, 1);
      ValCons(S[k..]);
      ValCons(Run(z.digits[..], k, z.used - k));
      assert S[k..][1..] == S[k + 1..];
      assert Run(z.digits[..], k, z.used - k)[1..] == Run(z.digits[..], k + 1, z.used - k - 1);
      d := save;
    }
    assert S[0..] == S;
  }

  /** The quotient of a run by a power of two taken in two steps: whole digits, then bits. */
  lemma {:induction false} TwoStepFloor(lo: int, h: int, P: int, q: int, r: int, n: nat)
    requires 0 <= lo < Exp(n) && h == P * q + r && 0 <= r < P
    ensures Shift(P, n) > 0
    ensures (lo + Shift(h, n)) / Shift(P, n) == q
    ensures (lo + Shift(h, n)) % Shift(P, n) == lo + Shift(r, n)
  {
    hide Shift;
    ShiftTimes(P, q, n);
    ShiftAdd(P * q, r, n);
    ShiftMono(r, P, n);
    ShiftMono(0, r, n);
    ShiftZero(n);
    DivUnique(lo + Shift(h, n), Shift(P, n), q, lo + Shift(r, n));
  }

  lemma {:induction false} SmallFloor(s: seq<digit>, n: nat, b: nat)
    requires |s| <= n
    ensures Val(s) < Shift(Pow2(b), n) && Val(s) / Shift(Pow2(b), n) == 0 && Val(s) % Shift(Pow2(b), n) == Val(s)
  {
    hide Val, Shift, Pow2;
    ValBound(s);
    ExpMono(|s|, n);
    ShiftMono(1, Pow2(b), n);
    DivUnique(Val(s), Shift(Pow2(b), n), 0, Val(s));
  }

  lemma {:induction false} SplitFloor(s: seq<digit>, n: nat, b: nat)
    requires n <= |s|
    ensures var h := Val(s[n..]);
      && Shift(Pow2(b), n) > 0
      && Val(s) / Shift(Pow2(b), n) == h / Pow2(b)
      && Val(s) % Shift(Pow2(b), n) == Val(s[..n]) + Shift(h % Pow2(b), n)
  {
    hide Val, Shift, Pow2;
    var h, P := Val(s[n..]), Pow2(b);
    ValSplit(s, n);
    ValBound(s[..n]);
    TwoStepFloor(Val(s[..n]), h, P, h / P, h % P, n);
  }

  /** The whole digits of a right shift. */
  method DropDigits(z: MpInt, n: nat)
    requires z.Valid() && n < z.used
    modifies z`used, z.digits
    ensures z.Valid() && z.used <= old(z.used) && z.Mag() == old(Val(Run(z.digits[..], 0, z.used)[n..]))
  {
    hide Val, Clamped;
    ghost var S := Run(z.digits[..], 0, z.used);
    RunSuffix(z.digits[..], z.used, n);
    if n != 0 {
      DigitsDown(z, n);
    }
  }

  lemma {:induction false} RunSuffix(d: seq<digit>, used: nat, n: nat)
    requires n <= used <= |d|
    ensures Run(d, 0, used)[n..] == Run(d, n, used - n)
    ensures Run(d, 0, used)[0..] == Run(d, 0, used)
  {
  }

  /** The bits of a right shift. */
  method DropBits(z: MpInt, nbits: nat)
    requires z.Valid() && nbits < 32
    modifies z`used, z.digits
    ensures z.Valid() && z.used <= old(z.used) && z.Mag() == old(z.Mag()) / Pow2(nbits)
  {
    hide Val, Pow2, Run, Clamped;
    if nbits != 0 {
      ghost var h, x := z.Mag(), z.digits[0];
      BitsDown(z, nbits);
      DivUnique(h, Pow2(nbits), z.Mag(), x % Pow2(nbits));
      Clamp(z);
    } else {
      OneIsNoShift();
    }
  }

  /** s_qdiv: the magnitude divided by a power of two; a zero result is never negative. */
  method QDiv(z: MpInt, p2: nat)
    requires z.Valid()
    modifies z`used, z`negative, z.digits
    ensures z.Valid() && z.Mag() == old(z.Mag()) / Pow2(p2) && z.used <= old(z.used)
    ensures z.negative == (z.Mag() != 0 && old(z.negative))
  {
    hide Val, Shift, Pow2, Run, Clamped;
    var ndig, nbits, uz := p2 / 32, p2 % 32, z.used;
    ghost var S := Run(z.digits[..], 0, uz);
    Pow2Digits(ndig, nbits);
    if ndig >= uz {
      SmallFloor(S, ndig, nbits);
      Zero(z);
      return;
    }
    SplitFloor(S, ndig, nbits);
    DropDigits(z, ndig);
    DropBits(z, nbits);
    ZeroMag(Run(z.digits[..], 0, z.used));
    RunAt(z.digits[..], 0, z.used, 0);
    if z.used == 1 && z.digits[0] == 0 {
      z.negative := false;
    }
  }

  lemma {:induction false} OneIsNoShift()
    ensures Pow2(0) == 1
  {
  }

  /** A factor of the radix sees only the lowest digit. */
  lemma {:induction false} ModLowDigit(s: seq<digit>, P: int, Q: int)
    requires s != [] && P > 0 && P * Q == RADIX
    ensures Val(s) % P == s[0] % P
  {
    ValCons(s);
    hide Val;
    var x, v: int := s[0], Val(s[1..]);
    MulAssoc(P, Q, v);
    MulComm(P, x / P + Q * v);
    MulDist(x / P, Q * v, P);
    MulComm(P, x / P);
    MulComm(P, Q * v);
    DivUnique(Val(s), P, x / P + Q * v, x % P);
  }

  /** s_qmod: the magnitude modulo a power of two. */
  method QMod(z: MpInt, p2: nat)
    requires z.Valid()
    modifies z`used, z.digits
    ensures z.Valid() && z.Mag() == old(z.Mag()) % Pow2(p2)
    ensures z.used <= old(z.used) && z.used <= p2 / 32 + 1
    ensures old(z.used) >= p2 / 32 + 1 ==> z.digits[p2 / 32] == old(z.digits[p2 / 32]) % Pow2(p2 % 32)
    ensures OnlyRun(old(z.digits[..]), z.digits[..], p2 / 32, 1)
  {
    hide Val, Shift, Pow2;
    var start, rest, uz := p2 / 32 + 1, p2 % 32, z.used;
    ghost var S := Run(z.digits[..], 0, uz);
    Pow2Digits(start - 1, rest);
    if start <= uz {
      var P := Pow2(rest);
      Pow2Part(rest);
      SplitFloor(S, start - 1, rest);
      ModLowDigit(S[start - 1..], P, Pow2(32 - rest));
      assert Run(z.digits[..], 0, start - 1) == S[..start - 1] && z.digits[start - 1] == S[start - 1];
      RunGrows(z.digits[..], 0, start - 1, z.digits[start - 1] % P);
      ValSnoc(Run(z.digits[..], 0, start - 1), z.digits[start - 1] % P);
      z.used := start;
      z.digits[start - 1] := z.digits[start - 1] % P;
      Clamp(z);
    } else {
      SmallFloor(S, start - 1, rest);
    }
  }

  /** Moves the run up by n digits and clears the n digits below it. */
  method DigitsUp(z: MpInt, n: nat)
    requires 0 < n && 1 <= z.used && z.used + n <= z.digits.Length
    modifies z.digits
    ensures Run(z.digits[..], n, z.used) == old(Run(z.digits[..], 0, z.used))
    ensures forall i :: 0 <= i < n ==> z.digits[i] == 0
    ensures OnlyRun(old(z.digits[..]), z.digits[..], 0, n + z.used)
  {
    hide Val;
    ghost var d := z.digits[..];
    var k := z.used;
    while k > 0
      invariant 0 <= k <= z.used
      invariant forall i :: n + k <= i < n + z.used ==> z.digits[i] == d[i - n]
      invariant OnlyRun(d, z.digits[..], n + k, z.used - k)
      modifies z.digits
    {
      k := k - 1;
      z.digits[n + k] := z.digits[k];
    }
    assert Run(z.digits[..], n, z.used) == Run(d, 0, z.used);
    ghost var D := z.digits[..];
    Clear(z.digits, 0, n);
    SameRun(D, z.digits[..], n, z.used, 0, n);
  }

  lemma {:induction false} BitsUpStep(x: digit, c: int, P: int, Q: int)
    requires P > 0 && Q > 0 && P * Q == RADIX && 0 <= c < P
    ensures (P * x) % RADIX + c < RADIX
    ensures (0 + P * x + c) % RADIX == (x * P) % RADIX + c
    ensures (0 + P * x + c) / RADIX == x / Q && 0 <= x / Q < P
  {
    var h, r: int := x / Q, x % Q;
    MulComm(P, x);
    MulComm(P, Q);
    LowBits(x, Q, P);
    MulDist(Q * h, r, P);
    MulComm(Q, h);
    MulAssoc(h, Q, P);
    MulMono(r, Q - 1, P);
    MulDist(Q, -1, P);
    MulMono(0, r, P);
    DivUnique(P * x + c, RADIX, h, r * P + c);
    if h >= P {
      MulMono(P, h, Q);
      MulComm(Q, h);
      assert false;
    }
  }

  /** Shifts n digits at offset o left by 0 < rest < 32 bits and returns the bits shifted out. */
  method BitsUp(t: array<digit>, o: nat, n: nat, rest: nat) returns (out: digit)
    requires o + n <= t.Length && n >= 1 && 0 < rest < 32
    modifies t
    ensures Val(Run(t[..], o, n) + [out]) == Pow2(rest) * old(Val(Run(t[..], o, n)))
    ensures out == old(t[o + n - 1]) / Pow2(32 - rest)
    ensures OnlyRun(old(t[..]), t[..], o, n)
  {
    hide Val, Shift, Carry, Lows, Pow2;
    ghost var T := Run(t[..], o, n);
    var P, Q := Pow2(rest), Pow2(32 - rest);
    Pow2Part(rest);
    PropagateStart([], P, T);
    DivUnique(0, Q, 0, 0);
    ValZeros([]);
    var d: digit := 0;
    var i := 0;
    while i < n
      invariant i <= n
      invariant d == if i == 0 then 0 else T[i - 1]
      invariant d / Q == Carry([], P, T, i) && 0 <= d / Q < P
      invariant Run(t[..], o, i) == Lows([], P, T, i)
      invariant OnlyRun(old(t[..]), t[..], o, i)
    {
      var save := t[o + i];
      assert save == T[i];
      PropagateStep([], P, T, i, 0, save);
      BitsUpStep(save, d / Q, P, Q);
      ghost var x := (save * P) % RADIX + d / Q;
      RunGrows(t[..], o, i, x);
      t[o + i] := (save * P) % RADIX + d / Q;
      d := save;
      i := i + 1;
    }
    out := d / Q;
    LowsVal([], P, T, n);
  }

  /** The partial-digit pass of s_qmul: bits shifted out of the top go into the spare digit above. */
  method BitsUpOver(t: array<digit>, o: nat, n: nat, rest: nat, extra: nat) returns (m: nat)
    requires n >= 1 && rest < 32 && o + n + extra <= t.Length
    requires extra == if rest != 0 && t[o + n - 1] / Pow2(32 - rest) != 0 then 1 else 0
    modifies t
    ensures m == n + extra
    ensures Val(Run(t[..], o, m)) == Pow2(rest) * old(Val(Run(t[..], o, n)))
    ensures OnlyRun(old(t[..]), t[..], o, m)
  {
    hide Val, Shift, Pow2;
    m := n;
    if rest != 0 {
      var out := BitsUp(t, o, n, rest);
      ValSnoc(Run(t[..], o, n), out);
      if out != 0 {
        RunGrows(t[..], o, n, out);
        t[o + n] := out;
        m := m + extra;
      } else {
        ShiftZero(n);
      }
    } else {
      OneIsNoShift();
    }
  }

  /** Bits shifted out of the top digit need one more digit. */
  lemma {:induction false} TopBitsOut(s: seq<digit>, top: digit, rest: nat)
    requires s != [] && top == s[|s| - 1] && rest <= 32 && top / Pow2(32 - rest) != 0
    ensures Pow2(rest) * Val(s) >= Exp(|s|)
  {
    hide Val, Pow2;
    var n, q := |s| - 1, Pow2(32 - rest);
    ValStep(s, n);
    assert s[..n + 1] == s;
    ValBound(s[..n]);
    if top < q {
      DivUnique(top, q, 0, top);
      assert false;
    }
    ShiftMono(q, top, n);
    MulMono(Shift(q, n), Val(s), Pow2(rest));
    MulComm(Val(s), Pow2(rest));
    ShiftTimes(q, Pow2(rest), n);
    MulComm(q, Pow2(rest));
    Pow2Part(rest);
    ShiftShift(1, 1, n);
    assert Shift(1, 1) == RADIX;
  }

  /** Whether a shift by rest bits needs one more digit. */
  method ExtraDigit(z: MpInt, rest: nat) returns (extra: nat)
    requires z.Valid() && rest < 32
    ensures extra == if rest != 0 && z.digits[z.used - 1] / Pow2(32 - rest) != 0 then 1 else 0
    ensures extra == 1 ==> Pow2(rest) * z.Mag() >= Exp(z.used)
  {
    hide Val, Shift, Pow2, Run, Clamped;
    extra := 0;
    if rest != 0 && z.digits[z.used - 1] / Pow2(32 - rest) != 0 {
      extra := 1;
      RunAt(z.digits[..], 0, z.used, z.used - 1);
      TopBitsOut(Run(z.digits[..], 0, z.used), z.digits[z.used - 1], rest);
    }
  }

  /** The first part of s_qmul: room for the result, and the digits moved up over cleared ones. */
  method MakeRoom(z: MpInt, need: nat, extra: nat)
    requires 1 <= z.used <= z.digits.Length
    modifies z`digits, z.digits
    ensures z.used + need + extra <= z.digits.Length && old(z.digits.Length) <= z.digits.Length && Moved(z)
    ensures old(z.digits.Length) >= z.used + need + extra ==> z.digits == old(z.digits)
    ensures Run(z.digits[..], need, z.used) == old(Run(z.digits[..], 0, z.used))
    ensures z.digits[need + z.used - 1] == old(z.digits[z.used - 1]) && forall i :: 0 <= i < need ==> z.digits[i] == 0
  {
    hide Val, Run;
    ghost var d := z.digits[..];
    Pad(z, z.used + need + extra);
    PrefixRun(d, z.digits[..], z.used);
    ghost var d' := z.digits[..];
    RunEnd(d, 0, d', 0, z.used);
    if need > 0 {
      DigitsUp(z, need);
      RunEnd(d', 0, z.digits[..], need, z.used);
    }
  }

  /** s_qmul: the magnitude times a power of two. */
  method QMul(z: MpInt, p2: nat)
    requires z.Valid()
    modifies z`digits, z`used, z.digits
    ensures z.Valid() && z.Mag() == Pow2(p2) * old(z.Mag())
    ensures Moved(z) && z.digits.Length >= old(z.digits.Length)
    ensures old(z.digits.Length) >= old(z.used) + p2 / 32 + 1 ==> z.digits == old(z.digits)
    ensures z.used <= old(z.used) + p2 / 32 + 1
    ensures p2 < 32 && Pow2(p2) * old(z.Mag()) < Exp(old(z.digits.Length)) ==> z.digits == old(z.digits)
  {
    hide Val, Shift, Pow2, Run, Clamped;
    if p2 == 0 {
      OneIsNoShift();
      return;
    }
    var uz, need, rest := z.used, p2 / 32, p2 % 32;
    var extra := ExtraDigit(z, rest);
    ghost var S := Run(z.digits[..], 0, uz);
    MakeRoom(z, need, extra);
    var m := BitsUpOver(z.digits, need, uz, rest, extra);
    ShiftedUp(z.digits[..], need, m, Pow2(rest), Val(S));
    Pow2Digits(need, rest);
    z.used := need + m;
    Clamp(z);
  }

  lemma {:induction false} RunEnd(d: seq<digit>, o: nat, d': seq<digit>, o': nat, n: nat)
    requires n >= 1 && o + n <= |d| && o' + n <= |d'| && Run(d, o, n) == Run(d', o', n)
    ensures d[o + n - 1] == d'[o' + n - 1]
  {
    assert d[o + n - 1] == Run(d, o, n)[n - 1];
    assert d'[o' + n - 1] == Run(d', o', n)[n - 1];
  }

  lemma {:induction false} ShiftedUp(d: seq<digit>, n: nat, m: nat, P: int, v: int)
    requires n + m <= |d| && Val(Run(d, n, m)) == P * v && forall i :: 0 <= i < n ==> d[i] == 0
    ensures Val(Run(d, 0, n + m)) == Shift(P, n) * v
  {
    hide Val, Shift;
    RunSplit(d, 0, n, m);
    ValConcat(Run(d, 0, n), Run(d, n, m));
    ValZeros(Run(d, 0, n));
    ShiftTimes(P, v, n);
  }

  /** The digits of hi * RADIX^n. */
  ghost function Spike(hi: digit, n: nat): (s: seq<digit>)
    ensures |s| == n + 1 && s[n] == hi && forall i :: 0 <= i < n ==> s[i] == 0
  {
    if n == 0 then [hi] else [0] + Spike(hi, n - 1)
  }

  lemma {:induction false} SpikeVal(hi: digit, n: nat)
    ensures Val(Spike(hi, n)) == Shift(hi, n)
  {
    if n > 0 {
      SpikeVal(hi, n - 1);
    }
  }

  /** The loop of s_qsub: hi * RADIX^n less the number in the n + 1 digits of a buffer, in place. */
  method TakeFromSpike(t: array<digit>, n: nat, hi: digit)
    requires n < t.Length && Val(Run(t[..], 0, n + 1)) <= Shift(hi, n)
    modifies t
    ensures Val(Run(t[..], 0, n + 1)) == Shift(hi, n) - old(Val(Run(t[..], 0, n + 1)))
    ensures OnlyRun(old(t[..]), t[..], 0, n + 1)
  {
    hide Val, Shift, Carry, Lows, Spike;
    ghost var A, B := Spike(hi, n), Run(t[..], 0, n + 1);
    PropagateStart(A, -1, B);
    SpikeVal(hi, n);
    var w: word := 0;
    var pos := 0;
    while pos < n
      invariant pos <= n && w <= 1
      invariant w == -Carry(A, -1, B, pos)
      invariant Run(t[..], 0, pos) == Lows(A, -1, B, pos)
      invariant OnlyRun(old(t[..]), t[..], 0, pos)
    {
      assert t[pos] == B[pos];
      BorrowStep(A, B, pos, 0, t[pos], w);
      w := RADIX - w - t[pos];
      RunGrows(t[..], 0, pos, w % RADIX);
      t[pos] := w % RADIX;
      w := if w / RADIX != 0 then 0 else 1;
      pos := pos + 1;
    }
    assert t[n] == B[n];
    BorrowStep(A, B, n, hi, t[n], w);
    w := RADIX + hi - w - t[n];
    RunGrows(t[..], 0, n, w % RADIX);
    t[n] := w % RADIX;
    NoBorrow(A, B, if w / RADIX == 0 then 1 else 0);
    assert w / RADIX != 0;
  }

  lemma {:induction false} Pow2BelowRadix(b: nat)
    requires b < 32
    ensures Pow2(b) < RADIX
  {
    Pow2Part(b + 1);
  }

  /** s_qsub: subtracts a magnitude from a power of two. The field `used` is left alone, so the result is
      the difference exactly when the difference needs no more digits than the operand had. */
  method QSub(z: MpInt, p2: nat)
    requires z.Valid() && z.used <= p2 / 32 + 1 <= z.digits.Length && z.Mag() <= Pow2(p2)
    requires forall i :: z.used <= i < p2 / 32 + 1 ==> z.digits[i] == 0
    modifies z`used, z`negative, z.digits
    ensures z.Valid() && !z.negative && z.used <= old(z.used)
    ensures z.Value() == Pow2(p2) - old(z.Mag()) <==> Pow2(p2) - old(z.Mag()) < Exp(old(z.used))
  {
    hide Val, Shift, Pow2, Run, Clamped;
    var tdig := p2 / 32;
    Pow2BelowRadix(p2 % 32);
    Pow2Digits(tdig, p2 % 32);
    RunTrim(z.digits[..], 0, z.used, tdig + 1);
    TakeFromSpike(z.digits, tdig, Pow2(p2 % 32));
    z.negative := false;
    KeptLength(z.digits[..], z.used, tdig + 1);
    Clamp(z);
  }

  /** The low digits of a run denote the whole number exactly when it is short enough. */
  lemma {:induction false} KeptLength(d: seq<digit>, n: nat, total: nat)
    requires n <= total <= |d|
    ensures Val(Run(d, 0, n)) == Val(Run(d, 0, total)) <==> Val(Run(d, 0, total)) < Exp(n)
  {
    hide Val, Shift;
    var s := Run(d, 0, total);
    assert s[..n] == Run(d, 0, n);
    ValBound(s[..n]);
    if Val(s) < Exp(n) {
      ValSmall(s, n);
      ValTrim(s, n);
    }
  }

  /** s_dp2k: the largest k such that 2^k divides a non-zero magnitude, with the odd part that is left; 1 for zero. */
  method Dp2k(z: MpInt) returns (k: nat, ghost odd: int)
    requires z.Valid()
    ensures z.Mag() == 0 ==> k == 1
    ensures z.Mag() != 0 ==> odd % 2 == 1 && odd > 0 && z.Mag() == Pow2(k) * odd
  {
    hide Val, Shift, Pow2;
    ghost var S := Run(z.digits[..], 0, z.used);
    ZeroMag(S);
    k := 0;
    odd := 0;
    if z.used == 1 && z.digits[0] == 0 {
      return 1, 0;
    }
    var dp := 0;
    while z.digits[dp] == 0
      invariant 0 <= dp < z.used && k == 32 * dp
      invariant forall i :: 0 <= i < dp ==> z.digits[i] == 0
      decreases z.used - dp
    {
      if dp + 1 == z.used {
        ValZeros(S);
        assert false;
      }
      k := k + 32;
      dp := dp + 1;
    }
    var d: int := z.digits[dp];
    ghost var b := 0;
    OneIsNoShift();
    while d % 2 == 0
      invariant d > 0 && k == 32 * dp + b
      invariant z.digits[dp] == Pow2(b) * d
      decreases d
    {
      HalveStep(b, d);
      d := d / 2;
      k := k + 1;
      b := b + 1;
    }
    odd := OddPart(S, dp, b, d);
  }

  lemma {:induction false} HalveStep(b: nat, d: int)
    requires d % 2 == 0
    ensures Pow2(b) * d == Pow2(b + 1) * (d / 2)
  {
    var h := d / 2;
    assert d == 2 * h;
    MulAssoc(Pow2(b), 2, h);
    MulComm(Pow2(b), 2);
  }

  /** With the zero digits below and the zero bits of the lowest digit taken out, an odd number is left. */
  lemma {:induction false} OddPart(s: seq<digit>, n: nat, b: nat, d: int) returns (odd: int)
    requires n < |s| && (forall i :: 0 <= i < n ==> s[i] == 0) && s[n] == Pow2(b) * d && d % 2 == 1 && d > 0
    ensures odd % 2 == 1 && odd > 0 && Val(s) == Pow2(32 * n + b) * odd
  {
    hide Val, Shift, Pow2;
    ValSplit(s, n);
    ValZeros(s[..n]);
    ValCons(s[n..]);
    var v := Val(s[n..][1..]);
    ValBound(s[n..][1..]);
    assert s[n..][0] == s[n];
    BelowRadix(b, d);
    var q := Pow2(31 - b);
    Pow2Half(b);
    odd := d + 2 * (q * v);
    MulMono(0, q, v);
    OddSplit(Pow2(b), q, d, v);
    ShiftTimes(Pow2(b), odd, n);
    Pow2Digits(n, b);
  }

  lemma {:induction false} OddSplit(P: int, q: int, d: int, v: int)
    requires 2 * (P * q) == RADIX
    ensures P * (d + 2 * (q * v)) == P * d + RADIX * v
  {
    var u := q * v;
    MulAssoc(P, q, v);
    MulComm(P, d + 2 * u);
    MulDist(d, 2 * u, P);
    MulDist(u, u, P);
    MulComm(P, d);
    MulComm(P, u);
    MulDist(P * q, P * q, v);
  }

  lemma {:induction false} Pow2Mono(m: nat, n: nat)
    ensures m <= n ==> Pow2(m) <= Pow2(n)
    decreases n
  {
    if m < n {
      Pow2Mono(m, n - 1);
    }
  }

  lemma {:induction false} BelowRadix(b: nat, d: int)
    requires d > 0 && Pow2(b) * d < RADIX
    ensures b < 32
  {
    MulMono(1, d, Pow2(b));
    MulComm(Pow2(b), d);
    Pow2Radix();
    Pow2Mono(32, b);
  }

  lemma {:induction false} Pow2Half(b: nat)
    requires b < 32
    ensures 2 * (Pow2(b) * Pow2(31 - b)) == RADIX
  {
    Pow2Part(b);
    MulAssoc(2, Pow2(31 - b), Pow2(b));
    MulComm(Pow2(b), Pow2(31 - b));
    MulComm(Pow2(b), Pow2(32 - b));
  }
}

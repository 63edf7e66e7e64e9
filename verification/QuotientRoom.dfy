/** How many digits s_udiv puts out for the quotient, and when its buffer, as long as the dividend, holds them. */
module QuotientRoom {
  import opened Digits
  import opened Powers
  import opened MpInts
  import opened Barrett
  import opened Quotients

  // ---- The count, on the digits of the dividend -----------------------------

  /** The partial remainder at p before a digit is put out there. */
  ghost function Start(s: seq<digit>, m: int, p: nat): int
    requires p < |s| && m > 0
  {
    s[p] + RADIX * (Val(s[p + 1..]) % m)
  }

  /** The digits put out at p beyond one. */
  ghost function Surplus(s: seq<digit>, m: int, t: int, p: nat): (n: int)
    requires p < |s| && m > 0
    ensures n >= 0
  {
    if Start(s, m, p) < RADIX * t then 0
    else
      QuotientNonneg(Start(s, m, p) - RADIX * t, m);
      (Start(s, m, p) - RADIX * t) / m + 1
  }

  /** And at all positions from p up. */
  ghost function SurplusFrom(s: seq<digit>, m: int, t: int, p: nat): (n: int)
    requires m > 0
    ensures n >= 0
    decreases |s| - p
  {
    if p >= |s| then 0 else Surplus(s, m, t, p) + SurplusFrom(s, m, t, p + 1)
  }

  /** The top position is left out when its digit is below the divisor. */
  ghost function Lead(s: seq<digit>, m: int): int
    requires s != []
  {
    if s[|s| - 1] < m then 1 else 0
  }

  /** All digits put out: one for a position, but none for a top digit below the divisor, and the surplus. */
  ghost function Pushed(s: seq<digit>, m: int, t: int): int
    requires s != [] && m > 0
  {
    |s| - Lead(s, m) + SurplusFrom(s, m, t, 0)
  }

  /** Where the count stands: n digits put out, j of them at pos, and win left there. */
  ghost predicate Counted(s: seq<digit>, m: int, t: int, pos: nat, win: int, n: int, here: bool, j: int) {
    && pos < |s| && m > 0
    && n == |s| - 1 - pos - (if pos < |s| - 1 then Lead(s, m) else 0) + SurplusFrom(s, m, t, pos + 1) + j
    && (if !here then j == 0
        else
          && j >= 1 && (pos == |s| - 1 ==> Lead(s, m) == 0)
          && if win >= m then win == Start(s, m, pos) - j * m && win + m >= RADIX * t else j == 1 + Surplus(s, m, t, pos))
  }

  lemma {:induction false} CountStarts(s: seq<digit>, m: int, t: int)
    requires s != [] && m > 0
    ensures Counted(s, m, t, |s| - 1, s[|s| - 1], 0, false, 0)
  {
  }

  lemma {:induction false} StartBelow(s: seq<digit>, m: int, p: nat)
    requires p < |s| && m > 0
    ensures 0 <= Start(s, m, p) < RADIX * m
    ensures p == |s| - 1 ==> Start(s, m, p) == s[p]
  {
    if p == |s| - 1 {
      assert s[p + 1..] == [];
      DivUnique(0, m, 0, 0);
    }
  }

  lemma {:induction false} SurplusStep(s: seq<digit>, m: int, t: int, p: nat)
    requires p < |s| && m > 0
    ensures SurplusFrom(s, m, t, p) == Surplus(s, m, t, p) + SurplusFrom(s, m, t, p + 1)
  {
  }

  lemma {:induction false} SurplusMono(s: seq<digit>, m: int, t: int, p: nat)
    requires m > 0
    ensures SurplusFrom(s, m, t, p) <= SurplusFrom(s, m, t, 0)
  {
    if p > 0 {
      SurplusMono(s, m, t, p - 1);
    }
  }

  /** When the last of j multiples brings the remainder below the tie, there were j - 1 extra ones before it. */
  lemma {:induction false} SurplusIs(s: seq<digit>, m: int, t: int, p: nat, j: nat)
    requires p < |s| && m > 0 && Start(s, m, p) - j * m < RADIX * t
    requires j == 0 || Start(s, m, p) - j * m + m >= RADIX * t
    ensures Surplus(s, m, t, p) == j
  {
    var x := Start(s, m, p) - RADIX * t;
    if j > 0 {
      MulDist(j, -1, m);
      MulMono(1, j, m);
      MulComm(m, j - 1);
      DivUnique(x, m, j - 1, x - (j - 1) * m);
    }
  }

  lemma {:induction false} SurplusAtLeast(s: seq<digit>, m: int, t: int, p: nat, j: nat)
    requires p < |s| && m > 0 && Start(s, m, p) - j * m >= RADIX * t
    ensures Surplus(s, m, t, p) >= j + 1
  {
    var x := Start(s, m, p) - RADIX * t;
    MulMono(0, j, m);
    DivBounds(x, m);
    if x / m < j {
      MulMono(x / m + 1, j, m);
      MulDist(x / m, 1, m);
      MulComm(m, x / m);
      assert false;
    }
  }

  /** A multiple is taken and its digit put out; there is a place for it. */
  lemma {:induction false} CountTakes(s: seq<digit>, m: int, t: int, pos: nat, win: int, n: int, here: bool, j: int, x: int, win': int)
    requires Counted(s, m, t, pos, win, n, here, j) && win >= m && 2 * m <= RADIX * t
    requires !here ==> win == Start(s, m, pos)
    requires x >= 1 && win' == win - x * m
    requires win < RADIX * t ==> win' < m
    requires RADIX * t <= win < RADIX * m ==> x == 1
    ensures Counted(s, m, t, pos, win', n + 1, true, j + 1) && n + 1 <= Pushed(s, m, t)
  {
    hide SurplusFrom, Surplus, Start;
    StartBelow(s, m, pos);
    SurplusMono(s, m, t, pos);
    SurplusStep(s, m, t, pos);
    MulMono(0, j, m);
    MulDist(j, 1, m);
    if win >= RADIX * t {
      SurplusAtLeast(s, m, t, pos, j);
    } else {
      SurplusIs(s, m, t, pos, j);
    }
  }

  /** Nothing is left to take here, and a position left without a digit, but for the top one, gets a zero; there is a place
      for it, and below the lowest position the count is complete. */
  lemma {:induction false} CountMoves(s: seq<digit>, m: int, t: int, pos: nat, win: int, n: int, here: bool, j: int)
    requires Counted(s, m, t, pos, win, n, here, j) && 0 <= win < m && 2 * m <= RADIX * t
    requires !here ==> win == Start(s, m, pos)
    ensures var n' := if !here && pos < |s| - 1 then n + 1 else n;
      n' <= Pushed(s, m, t) && if pos == 0 then n' == Pushed(s, m, t) else Counted(s, m, t, pos - 1, Start(s, m, pos - 1), n', false, 0)
  {
    hide SurplusFrom, Surplus, Start;
    StartBelow(s, m, pos);
    SurplusMono(s, m, t, pos);
    SurplusStep(s, m, t, pos);
    if !here {
      MulMono(0, 0, m);
      SurplusIs(s, m, t, pos, 0);
    }
  }

  // ---- The count, on the operands -------------------------------------------

  /** The digits of a number, the lowest first. */
  ghost function DigitsOf(x: nat): (s: seq<digit>)
    ensures s != [] && (|s| == 1 || s[|s| - 1] != 0) && Val(s) == x
  {
    if x < RADIX then ValOne(x); [x]
    else
      ghost var s := [x % RADIX] + DigitsOf(x / RADIX);
      assert s[1..] == DigitsOf(x / RADIX);
      TopKept(DigitsOf(x / RADIX), x / RADIX);
      s
  }

  lemma {:induction false} TopKept(s: seq<digit>, x: nat)
    requires s != [] && (|s| == 1 || s[|s| - 1] != 0) && Val(s) == x > 0
    ensures s[|s| - 1] != 0
  {
    if |s| == 1 {
      assert s == [s[0]];
      ValOne(s[0]);
    }
  }

  /** The digits of a number are those it is held in. */
  lemma {:induction false} DigitsAre(s: seq<digit>)
    requires Clamped(s)
    ensures Val(s) >= 0 && s == DigitsOf(Val(s))
  {
    ValBound(s);
    var r := DigitsOf(Val(s));
    if |r| < |s| {
      LongerIsLarger(s, r);
      assert false;
    } else if |s| < |r| {
      LongerIsLarger(r, s);
      assert false;
    }
    ValUnique(s, r);
  }

  /** The digits put out in the division of a by b, scaled by 2^k. */
  ghost function PushedAt(a: nat, b: nat, k: nat, t: int): int
    requires b > 0
  {
    ScaledSigns(a, b, k);
    Pushed(DigitsOf(Pow2(k) * a), Pow2(k) * b, t)
  }

  /** The buffer for the quotient is as long as the scaled dividend, rounded up as every new number is. */
  ghost function RoomAt(a: nat, b: nat, k: nat): int
    requires b > 0
  {
    ScaledSigns(a, b, k);
    Capacity(|DigitsOf(Pow2(k) * a)|)
  }

  /** The digits put out in the long division of a by b fit the buffer. */
  ghost predicate QuotientFits(a: nat, b: nat)
    requires b > 0
  {
    forall k: nat, t: int :: Scaled(b, k, t) ==> PushedAt(a, b, k, t) <= RoomAt(a, b, k)
  }

  /** There is one scaling, so the condition is that of the division as it is done. */
  lemma {:induction false} FitsIs(a: nat, b: nat, k: nat, t: int)
    requires b > 0 && Scaled(b, k, t)
    ensures QuotientFits(a, b) <==> PushedAt(a, b, k, t) <= RoomAt(a, b, k)
  {
    hide Pow2, TopPart, Pushed, DigitsOf;
    forall k': nat, t': int | Scaled(b, k', t') ensures k == k' && t == t' {
      ScaledOnce(b, k, t, k', t');
      ScaledOnce(b, k', t', k, t);
      TopPartUnique(Pow2(k) * b, t, t');
    }
  }

  /** Without a tie a position gets at most one digit. */
  lemma {:induction false} NoTieNoSurplus(s: seq<digit>, m: int, t: int, p: nat)
    requires m > 0 && forall p :: 0 <= p < |s| ==> !Tie(s, m, t, p)
    ensures SurplusFrom(s, m, t, p) == 0
    decreases |s| - p
  {
    if p < |s| {
      NoTieNoSurplus(s, m, t, p + 1);
      assert !Tie(s, m, t, p);
      assert Start(s, m, p) < RADIX * t;
    }
  }

  /** So it is enough that the division does not tie. */
  lemma {:induction false} NoTieFits(a: nat, b: nat)
    requires b > 0 && !Ties(a, b)
    ensures QuotientFits(a, b)
  {
    hide Pow2, TopPart, NoTie, DigitsOf;
    forall k: nat, t: int | Scaled(b, k, t) ensures PushedAt(a, b, k, t) <= RoomAt(a, b, k) {
      ScaledSigns(a, b, k);
      var m, s := Pow2(k) * b, DigitsOf(Pow2(k) * a);
      assert !TieAt(a, b, k, t);
      var c, n := TopRange(m, t);
      TopIsPositive(m, t);
      NoTieIs(s, m, t);
      NoTieNoSurplus(s, m, t, 0);
    }
  }

  lemma {:induction false} TopIsPositive(m: int, t: int)
    requires m > 0 && m < 2 * t
    ensures t > 0
  {
  }

  // ---- A modulus on which the buffer is too short ---------------------------

  /** 2^64 - 2^32 + 1. */
  const PRIME: nat := 0xffff_ffff_0000_0001

  /** The powers of B modulo that prime come round after six. */
  ghost function PowerResidue(e: nat): int {
    var i := e % 6;
    if i == 0 then 1 else if i == 1 then RADIX else if i == 2 then RADIX - 1
    else if i == 3 then PRIME - 1 else if i == 4 then PRIME - RADIX else PRIME - RADIX + 1
  }

  lemma {:induction false} PowerModPrime(e: nat)
    ensures Exp(e) % PRIME == PowerResidue(e)
  {
    hide Shift;
    ShiftNone(1);
    if e == 0 {
      DivUnique(1, PRIME, 0, 1);
    } else {
      PowerModPrime(e - 1);
      ShiftUp(1, e - 1);
      var q, r := Exp(e - 1) / PRIME, PowerResidue(e - 1);
      ResidueTurn(e - 1);
      var k := ResidueCarry(e - 1);
      assert Exp(e - 1) == PRIME * q + r;
      DivUnique(Exp(e), PRIME, RADIX * q + k, PowerResidue(e));
    }
  }

  ghost function ResidueCarry(e: nat): int {
    var i := e % 6;
    if i == 1 then 1 else if i == 3 then RADIX - 1 else if i == 4 then RADIX - 2 else if i == 5 then RADIX - 1 else 0
  }

  lemma {:induction false} ResidueTurn(e: nat)
    ensures RADIX * PowerResidue(e) == PRIME * ResidueCarry(e) + PowerResidue(e + 1)
  {
  }

  lemma {:induction false} DigitsStep(x: nat, q: nat)
    requires q >= 1 && x == RADIX * q
    ensures DigitsOf(x) == [0] + DigitsOf(q)
  {
    DivUnique(x, RADIX, q, 0);
  }

  lemma {:induction false} DigitOnly()
    ensures DigitsOf(1) == [1]
  {
  }

  /** The digits of a power of B. */
  lemma {:induction false} PowerDigits(n: nat)
    ensures Exp(n) >= 1 && |DigitsOf(Exp(n))| == n + 1 && DigitsOf(Exp(n))[n] == 1
    ensures n > 0 ==> DigitsOf(Exp(n))[0] == 0 && DigitsOf(Exp(n))[1..] == DigitsOf(Exp(n - 1))
  {
    hide DigitsOf, Shift;
    ShiftNone(1);
    if n > 0 {
      PowerDigits(n - 1);
      ShiftUp(1, n - 1);
      DigitsStep(Exp(n), Exp(n - 1));
    } else {
      DigitOnly();
    }
  }

  lemma {:induction false} PowerSuffix(n: nat, p: nat)
    requires p <= n
    ensures Exp(n) >= 1 && Exp(n - p) >= 1 && |DigitsOf(Exp(n))| == n + 1 && DigitsOf(Exp(n))[p..] == DigitsOf(Exp(n - p))
  {
    hide DigitsOf, Shift;
    PowerDigits(n);
    PowerDigits(n - p);
    if p > 0 {
      PowerSuffix(n - 1, p - 1);
      assert DigitsOf(Exp(n))[p..] == DigitsOf(Exp(n))[1..][p - 1..];
    }
  }

  /** A power of B by the prime: the remainder ties at every sixth position. */
  lemma {:induction false} PowerSurplus(n: nat, p: nat)
    requires p <= n
    ensures Exp(n) >= 1 && |DigitsOf(Exp(n))| == n + 1
    ensures Surplus(DigitsOf(Exp(n)), PRIME, PRIME - 1, p) == if p < n && (n - 1 - p) % 6 == 3 then 1 else 0
  {
    hide DigitsOf, Shift;
    var s := DigitsOf(Exp(n));
    PowerSuffix(n, p);
    PowerDigits(n - p);
    assert s[p] == s[p..][0];
    if p < n {
      PowerSuffix(n, p + 1);
      PowerModPrime(n - p - 1);
      assert Start(s, PRIME, p) == RADIX * PowerResidue(n - p - 1);
      if (n - 1 - p) % 6 == 3 {
        DivUnique(0, PRIME, 0, 0);
      }
    } else {
      StartBelow(s, PRIME, p);
    }
  }

  lemma {:induction false} PowerSurplusFrom(n: nat, p: nat)
    requires p <= n
    ensures Exp(n) >= 1 && |DigitsOf(Exp(n))| == n + 1
    ensures SurplusFrom(DigitsOf(Exp(n)), PRIME, PRIME - 1, p) == (n - p + 2) / 6
    decreases n - p
  {
    hide DigitsOf, Shift, Surplus;
    PowerSurplus(n, p);
    if p < n {
      PowerSurplusFrom(n, p + 1);
    }
  }

  /** Dividing B^n by that prime puts out n + (n + 2) / 6 digits, which fit the buffer exactly for n below 56. */
  lemma {:induction false} PowerFitsExactly(n: nat)
    ensures Exp(n) >= 1 && (QuotientFits(Exp(n), PRIME) <==> n < 56)
  {
    hide DigitsOf, Shift, SurplusFrom, QuotientFits;
    var t := PRIME - 1;
    PowerDigits(n);
    PowerSurplusFrom(n, 0);
    OnePower();
    PrimeTop();
    FitsIs(Exp(n), PRIME, 0, t);
    assert PushedAt(Exp(n), PRIME, 0, t) == n + (n + 2) / 6;
    assert RoomAt(Exp(n), PRIME, 0) == Capacity(n + 1);
  }

  lemma {:induction false} PrimeTop()
    ensures Scaled(PRIME, 0, PRIME - 1)
  {
    hide Shift;
    PlaceOne(0xffff_ffff);
    PlaceOne(RADIX);
    OnePower();
    assert TopAt(PRIME, PRIME - 1, 0xffff_ffff, 1);
  }
}

/** The digits s_udiv puts out for the quotient: what they denote, and exactly when that is the quotient. */
module Quotients {
  import opened Digits
  import opened Powers
  import opened MpInts
  import opened Barrett

  /** The number of digits put out most significant first. */
  ghost function Emitted(q: seq<digit>): (n: int)
    ensures n >= 0
  {
    if q == [] then 0 else RADIX * Emitted(q[..|q| - 1]) + q[|q| - 1]
  }

  lemma {:induction false} EmittedSnoc(q: seq<digit>, x: digit)
    ensures Emitted(q + [x]) == RADIX * Emitted(q) + x
  {
    assert (q + [x])[..|q|] == q;
  }

  // ---- The estimate of a digit --------------------------------------------

  /** The estimate of s_udiv from the top digits of the partial remainder and the top digit of the divisor. */
  function Guessed(top: digit, second: digit, two: bool, btop: digit): int
    requires btop > 0
  {
    var pfx := if two && (top < btop || second == 0) then top * RADIX + second else top;
    if pfx / btop > RADIX - 1 then 1 else pfx / btop
  }

  /** The estimate for a run. */
  function GuessOf(r: seq<digit>, btop: digit): int
    requires r != [] && btop > 0
  {
    Guessed(r[|r| - 1], if |r| > 1 then r[|r| - 2] else 0, |r| > 1, btop)
  }

  lemma {:induction false} ShiftUp(u: int, n: nat)
    ensures Shift(u, n + 1) == Shift(RADIX * u, n) == RADIX * Shift(u, n)
  {
    ShiftShift(u, 1, n);
    assert Shift(u, 1) == RADIX * Shift(u, 0);
  }

  lemma {:induction false} TopBounds(s: seq<digit>)
    requires s != []
    ensures Shift(s[|s| - 1], |s| - 1) <= Val(s) < Shift(s[|s| - 1] as int + 1, |s| - 1)
  {
    hide Shift, Val;
    var n := |s| - 1;
    ValStep(s, n);
    assert s[..n + 1] == s;
    ValBound(s[..n]);
    ShiftAdd(s[n], 1, n);
  }

  lemma {:induction false} TopTwoBounds(s: seq<digit>)
    requires |s| >= 2
    ensures var x := s[|s| - 1] * RADIX + s[|s| - 2]; Shift(x, |s| - 2) <= Val(s) < Shift(x + 1, |s| - 2)
  {
    hide Shift, Val;
    var n := |s| - 2;
    var top: int, second: int := s[n + 1], s[n];
    ValStep(s, n + 1);
    ValStep(s, n);
    assert s[..n + 2] == s;
    ValBound(s[..n]);
    ShiftUp(top, n);
    ShiftAdd(RADIX * top, second, n);
    ShiftAdd(RADIX * top + second, 1, n);
  }

  /** An estimate x / c of a prefix x is high enough: what lies below (x + 1) c' places is below (q + 1) b. */
  lemma {:induction false} PrefixHigh(v: int, x: nat, c: int, n: nat, b: int)
    requires c > 0 && v < Shift(x + 1, n) && Shift(c, n) <= b
    ensures v < (x / c + 1) * b
  {
    hide Shift;
    var q := x / c;
    DivBounds(x, c);
    MulComm(c, q);
    MulDist(q, 1, c);
    assert x + 1 <= (q + 1) * c;
    ShiftMono(x + 1, (q + 1) * c, n);
    ShiftTimes(c, q + 1, n);
    MulComm(c, q + 1);
    QuotientNonneg(x, c);
    MulMono(Shift(c, n), b, q + 1);
    MulComm(Shift(c, n), q + 1);
    MulComm(b, q + 1);
  }

  /** Without a tie of top digits the estimate for a normalized divisor is not too small. */
  lemma {:induction false} GuessHigh(r: seq<digit>, b: seq<digit>)
    requires Clamped(r) && Clamped(b) && b[|b| - 1] >= RADIX / 2
    requires Val(b) <= Val(r) < Shift(b[|b| - 1], |b|)
    ensures Val(r) < (GuessOf(r, b[|b| - 1]) + 1) * Val(b)
  {
    hide Val, Shift;
    var ub, used := |b|, |r|;
    var btop: int, top: int := b[ub - 1], r[used - 1];
    TopBounds(b);
    TopBounds(r);
    TopNonzero(r, b);
    if used < ub {
      LongerIsLarger(b, r);
      assert false;
    } else if used > ub + 1 {
      TooLong(r, b);
      assert false;
    } else if used == ub + 1 {
      TopBelow(r, b);
      TopTwoBounds(r);
      var x := top * RADIX + r[used - 2];
      TwoDigitQuotient(top, r[used - 2], btop);
      PrefixHigh(Val(r), x, btop, ub - 1, Val(b));
    } else {
      TopNotBelow(r, b);
      if used > 1 && r[used - 2] == 0 {
        LongQuotient(top, btop);
        DoubleTop(Val(r), top, btop, ub - 1, Val(b));
      } else {
        ShortQuotient(top, btop);
        PrefixHigh(Val(r), top, btop, ub - 1, Val(b));
      }
    }
  }

  lemma {:induction false} TopNonzero(r: seq<digit>, b: seq<digit>)
    requires Clamped(r) && Clamped(b) && b[|b| - 1] > 0 && Val(b) <= Val(r)
    ensures r[|r| - 1] > 0
  {
    TopBounds(b);
    ShiftMono(1, b[|b| - 1], |b| - 1);
    ZeroMag(r);
    ZeroMag(b);
  }

  lemma {:induction false} TooLong(r: seq<digit>, b: seq<digit>)
    requires Clamped(r) && Clamped(b) && |r| > |b| + 1 && r[|r| - 1] > 0
    ensures Val(r) >= Shift(b[|b| - 1], |b|)
  {
    hide Shift, Val;
    ValTop(r);
    ExpMono(|b| + 1, |r| - 1);
    ShiftShift(1, 1, |b|);
    ShiftMono(b[|b| - 1], RADIX, |b|);
    ShiftUp(1, |b|);
  }

  /** One digit longer than the divisor and below the tie: the top digit is smaller. */
  lemma {:induction false} TopBelow(r: seq<digit>, b: seq<digit>)
    requires r != [] && b != [] && |r| == |b| + 1 && Val(r) < Shift(b[|b| - 1], |b|)
    ensures r[|r| - 1] < b[|b| - 1]
  {
    hide Shift, Val;
    TopBounds(r);
    ShiftCancel(r[|r| - 1], b[|b| - 1], |b|);
  }

  /** As long as the divisor and not below it: the top digit is not smaller. */
  lemma {:induction false} TopNotBelow(r: seq<digit>, b: seq<digit>)
    requires r != [] && |r| == |b| && Val(b) <= Val(r)
    ensures r[|r| - 1] >= b[|b| - 1]
  {
    hide Shift, Val;
    TopBounds(r);
    TopBounds(b);
    ShiftCancel(b[|b| - 1], r[|r| - 1] as int + 1, |b| - 1);
  }

  lemma {:induction false} TwoDigitQuotient(top: digit, second: digit, c: digit)
    requires top < c
    ensures 0 <= (top * RADIX + second) / c <= RADIX - 1
  {
    var x := top * RADIX + second;
    QuotientNonneg(x, c);
    DivBounds(x, c);
    if x / c >= RADIX {
      MulMono(RADIX, x / c, c);
      MulComm(c, x / c);
      MulMono(top + 1, c, RADIX);
      assert false;
    }
  }

  lemma {:induction false} LongQuotient(top: digit, c: digit)
    requires top >= c > 0
    ensures (top * RADIX) / c > RADIX - 1
  {
    var x := top * RADIX;
    DivBounds(x, c);
    if x / c <= RADIX - 1 {
      MulMono(x / c, RADIX - 1, c);
      MulComm(c, x / c);
      MulMono(c, top, RADIX);
      MulDist(RADIX, -1, c);
      MulComm(RADIX, c);
      assert false;
    }
  }

  lemma {:induction false} ShortQuotient(top: digit, c: digit)
    requires c > 0
    ensures 0 <= top / c <= RADIX - 1
  {
    QuotientNonneg(top, c);
    DivBounds(top, c);
    if top / c > top {
      MulMono(1, c, top / c);
      assert false;
    }
  }

  /** With a normalized divisor of the same length the quotient is below two. */
  lemma {:induction false} DoubleTop(v: int, top: digit, c: digit, n: nat, b: int)
    requires c >= RADIX / 2 && v < Shift(top + 1, n) && Shift(c, n) <= b
    ensures v < (1 + 1) * b
  {
    hide Shift;
    ShiftMono(top + 1, 2 * c, n);
    ShiftTimes(c, 2, n);
  }

  /** With a tie of top digits the estimate is one. */
  lemma {:induction false} GuessTie(r: seq<digit>, b: seq<digit>)
    requires Clamped(r) && Clamped(b) && b[|b| - 1] > 0
    requires Shift(b[|b| - 1], |b|) <= Val(r) < RADIX * Val(b)
    ensures GuessOf(r, b[|b| - 1]) == 1
  {
    hide Val, Shift;
    var ub, used := |b|, |r|;
    var btop: int := b[ub - 1];
    TopBounds(b);
    TopBounds(r);
    ShiftUp(btop + 1, ub - 1);
    assert Val(r) < Shift(btop + 1, ub);
    ShiftMono(1, btop, ub);
    if used <= ub {
      ValBound(r);
      ExpMono(used, ub);
      assert false;
    }
    TieLength(r, b);
    ShiftCancel(r[used - 1], btop + 1, ub);
    ShiftCancel(btop, r[used - 1] as int + 1, ub);
    assert r[used - 1] == btop;
    LongQuotient(btop, btop);
    DivUnique(btop, btop, 1, 0);
  }

  lemma {:induction false} TieLength(r: seq<digit>, b: seq<digit>)
    requires Clamped(r) && b != [] && |r| > |b| && Val(r) < Shift(b[|b| - 1] as int + 1, |b|)
    ensures |r| == |b| + 1
  {
    hide Val, Shift;
    if |r| > |b| + 1 {
      ValTop(r);
      ExpMono(|b| + 1, |r| - 1);
      ShiftUp(1, |b|);
      ShiftMono(b[|b| - 1] as int + 1, RADIX, |b|);
      assert false;
    }
  }

  // ---- The run of the digit loop ------------------------------------------

  /** At position p the partial remainder comes in with the divisor's top digit on top: w is at least t. */
  ghost predicate Tie(s: seq<digit>, m: int, t: int, p: nat)
    requires p < |s| && m > 0
  {
    Val(s[p + 1..]) % m >= t
  }

  /** Where the loop stands: win is left in the window at pos, q the quotient so far at that weight, n the number put out;
      here tells that pos has a digit already, once that no position has got two. */
  ghost predicate Track(s: seq<digit>, m: int, t: int, pos: nat, win: int, q: int, n: int, here: bool, once: bool) {
    && pos < |s| && m > 0 && win >= 0 && q >= 0 && n >= 0 && Val(s[pos..]) == win + q * m
    && (!here ==> win == s[pos] + RADIX * (Val(s[pos + 1..]) % m))
    && (once ==> forall p :: pos < p < |s| ==> !Tie(s, m, t, p))
    && (!once ==> exists p :: pos <= p < |s| && Tie(s, m, t, p))
    && (here && once && Tie(s, m, t, pos) ==> win >= m)
    && (here && win >= m ==> Tie(s, m, t, pos))
    && (here ==> n >= 1)
    && (if here then (if once then n == q else n > q) else (if once then RADIX * n == q else RADIX * n > q))
  }

  lemma {:induction false} TrackStarts(s: seq<digit>, m: int, t: int)
    requires s != [] && m > 0 && t > 0
    ensures Track(s, m, t, |s| - 1, s[|s| - 1], 0, 0, false, true)
  {
    var pos := |s| - 1;
    assert s[pos..] == [s[pos]] && s[pos + 1..] == [];
    assert Val([s[pos]]) == s[pos];
    DivUnique(0, m, 0, 0);
  }

  /** The remainder of a number below its modulus plus a multiple. */
  lemma {:induction false} RemainderOf(v: int, w: int, q: int, m: int)
    requires m > 0 && 0 <= w < m && v == w + q * m
    ensures v % m == w
  {
    MulComm(q, m);
    DivUnique(v, m, q, w);
  }

  lemma {:induction false} SuffixStep(s: seq<digit>, pos: nat)
    requires 1 <= pos < |s|
    ensures Val(s[pos - 1..]) == s[pos - 1] + RADIX * Val(s[pos..])
  {
    assert s[pos - 1..][1..] == s[pos..];
  }

  /** A window below the divisor has had no tie it did not get a second digit for. */
  lemma {:induction false} NoTieHere(s: seq<digit>, m: int, t: int, pos: nat, win: int, q: int, n: int, here: bool)
    requires Track(s, m, t, pos, win, q, n, here, true) && win < m && 2 * m <= RADIX * t
    ensures !Tie(s, m, t, pos)
  {
    var w := Val(s[pos + 1..]) % m;
    assert w >= t ==> RADIX * w >= 2 * m;
  }

  /** Down one position; a position left without a digit gets a zero. */
  lemma {:induction false} TrackMoves(s: seq<digit>, m: int, t: int, pos: nat, win: int, q: int, n: int, here: bool, once: bool)
    requires Track(s, m, t, pos, win, q, n, here, once) && win < m && 2 * m <= RADIX * t && pos >= 1
    ensures Track(s, m, t, pos - 1, s[pos - 1] + RADIX * win, RADIX * q, if here then n else RADIX * n, false, once)
  {
    SuffixStep(s, pos);
    RemainderOf(Val(s[pos..]), win, q, m);
    assert Val(s[pos - 1..]) == s[pos - 1] + RADIX * (win + q * m);
    MulAssoc(RADIX, q, m);
    assert Val(s[pos - 1..]) == (s[pos - 1] + RADIX * win) + (RADIX * q) * m;
    if once {
      NoTieHere(s, m, t, pos, win, q, n, here);
    }
  }

  /** At the lowest position the loop is done: what was put out is the quotient exactly when there was no tie. */
  lemma {:induction false} TrackEnds(s: seq<digit>, m: int, t: int, win: int, q: int, n: int, here: bool, once: bool)
    requires Track(s, m, t, 0, win, q, n, here, once) && win < m && 2 * m <= RADIX * t
    ensures Val(s) == win + q * m
    ensures (if here then n else RADIX * n) >= q
    ensures (if here then n else RADIX * n) == q <==> forall p :: 0 <= p < |s| ==> !Tie(s, m, t, p)
  {
    assert s[0..] == s;
    if once {
      NoTieHere(s, m, t, 0, win, q, n, here);
    }
  }

  /** x times the divisor is taken off the window: once, unless there is a tie, and then x is one. */
  lemma {:induction false} TrackTakes(s: seq<digit>, m: int, t: int, pos: nat, win: int, q: int, n: int, here: bool, once: bool, x: int, win': int)
    requires Track(s, m, t, pos, win, q, n, here, once) && win >= m && 2 * m <= RADIX * t
    requires x >= 1 && win' == win - x * m && win' >= 0
    requires win < RADIX * t ==> win' < m
    requires RADIX * t <= win < RADIX * m ==> x == 1
    ensures Track(s, m, t, pos, win', q + x, RADIX * n + x, true, once && !here)
  {
    MulDist(q, x, m);
    var w := Val(s[pos + 1..]) % m;
    if !here {
      assert win < RADIX * m;
      if Tie(s, m, t, pos) {
        assert win >= RADIX * t;
      } else {
        assert win < RADIX * t;
      }
    }
  }

  // ---- The condition, in numbers ------------------------------------------

  /** No partial remainder of a by m carries the top digit of m in its top place; t is m with the other digits cleared. */
  ghost predicate NoTie(a: nat, m: int, t: int)
    requires m > 0
  {
    forall p: nat :: Incoming(a, m, p) < t
  }

  /** The partial remainder that comes in at position p. */
  ghost function Incoming(a: nat, m: int, p: nat): int
    requires m > 0
  {
    (a / Exp(p + 1)) % m
  }

  lemma {:induction false} SuffixDiv(s: seq<digit>, p: nat)
    requires p <= |s|
    ensures Val(s) / Exp(p) == Val(s[p..])
  {
    hide Shift, Val;
    ValSplit(s, p);
    ValBound(s[..p]);
    ShiftTimes(1, Val(s[p..]), p);
    DivUnique(Val(s), Exp(p), Val(s[p..]), Val(s[..p]));
  }

  lemma {:induction false} NoTieIs(s: seq<digit>, m: int, t: int)
    requires m > 0 && t > 0
    ensures Val(s) >= 0 && (NoTie(Val(s), m, t) <==> forall p :: 0 <= p < |s| ==> !Tie(s, m, t, p))
  {
    hide Val, Shift;
    ValBound(s);
    forall p: nat ensures Incoming(Val(s), m, p) == if p < |s| then Val(s[p + 1..]) % m else 0 {
      if p < |s| {
        SuffixDiv(s, p + 1);
      } else {
        ExpMono(|s|, p + 1);
        DivUnique(Val(s), Exp(p + 1), 0, Val(s));
        DivUnique(0, m, 0, 0);
      }
    }
    if NoTie(Val(s), m, t) {
      forall p | 0 <= p < |s| ensures !Tie(s, m, t, p) {
        assert Incoming(Val(s), m, p) < t;
      }
    }
    if forall p :: 0 <= p < |s| ==> !Tie(s, m, t, p) {
      forall p: nat ensures Incoming(Val(s), m, p) < t {
        if p < |s| {
          assert !Tie(s, m, t, p);
        }
      }
    }
  }

  /** A divisor of one digit never ties. */
  lemma {:induction false} OneDigitNoTie(a: nat, m: int)
    requires m > 0
    ensures NoTie(a, m, m)
  {
    hide Shift;
    forall p: nat ensures Incoming(a, m, p) < m {
    }
  }

  /** Twice a normalized divisor is below its top digit one place up. */
  lemma {:induction false} TwiceBelow(b: seq<digit>)
    requires b != [] && b[|b| - 1] >= RADIX / 2
    ensures var t := Shift(b[|b| - 1], |b| - 1); 2 * Val(b) <= RADIX * t == Shift(b[|b| - 1], |b|) && t > 0
  {
    hide Shift, Val;
    var n, c: int := |b| - 1, b[|b| - 1];
    TopBounds(b);
    ShiftUp(c, n);
    ShiftAdd(c, 1, n);
    ShiftMono(1, c, n);
  }

  // ---- The condition, for operands of any size ----------------------------

  /** t is m with all digits but the top one cleared, and that one is at least half the radix. */
  ghost predicate TopPart(m: int, t: int) {
    exists c: digit, n: nat :: TopAt(m, t, c, n)
  }

  ghost predicate TopAt(m: int, t: int, c: digit, n: nat) {
    c >= RADIX / 2 && t == Shift(c, n) && t <= m < Shift(c as int + 1, n)
  }

  /** Scaled by 2^k, b fills its top digit, and t is that digit in its place. */
  ghost predicate Scaled(b: int, k: nat, t: int) {
    k < 32 && Pow2(k) * b > 0 && TopPart(Pow2(k) * b, t)
  }

  ghost predicate TieAt(a: nat, b: nat, k: nat, t: int)
    requires b > 0
  {
    ScaledSigns(a, b, k);
    !NoTie(Pow2(k) * a, Pow2(k) * b, t)
  }

  lemma {:induction false} ScaledSigns(a: nat, b: nat, k: nat)
    ensures Pow2(k) * a >= 0 && (b > 0 ==> Pow2(k) * b > 0)
  {
    hide Pow2;
    MulMono(1, Pow2(k), a);
    MulMono(1, Pow2(k), b);
  }

  /** In the long division of a by b, both scaled, some partial remainder ties with the top digit of the divisor. */
  ghost predicate Ties(a: nat, b: nat)
    requires b > 0
  {
    exists k: nat, t: int :: Scaled(b, k, t) && TieAt(a, b, k, t)
  }

  /** The place of a digit that is at least half the radix. */
  lemma {:induction false} TopRange(m: int, t: int) returns (c: digit, n: nat)
    requires TopPart(m, t)
    ensures c >= RADIX / 2 && t == Shift(c, n) && t <= m < Shift(c as int + 1, n)
    ensures Shift(RADIX / 2, n) <= m < Exp(n + 1) && Exp(n) <= t && m < 2 * t
  {
    hide Shift;
    c, n :| TopAt(m, t, c, n);
    PlaceBounds(c, n);
  }

  lemma {:induction false} PlaceBounds(c: int, n: nat)
    requires RADIX / 2 <= c < RADIX
    ensures Shift(RADIX / 2, n) <= Shift(c, n) && Shift(c + 1, n) <= Exp(n + 1)
    ensures Exp(n) <= Shift(c, n) && Shift(c + 1, n) <= 2 * Shift(c, n)
  {
    hide Shift;
    ShiftMono(RADIX / 2, c, n);
    ShiftMono(c + 1, RADIX, n);
    ShiftMono(1, c, n);
    ShiftUp(1, n);
    ShiftMono(c + 1, c + c, n);
    ShiftAdd(c, c, n);
  }

  lemma {:induction false} SamePlace(m: int, n: nat, n': nat)
    requires Shift(RADIX / 2, n) <= m < Exp(n + 1) && Shift(RADIX / 2, n') <= m < Exp(n' + 1)
    ensures n == n'
  {
    hide Shift;
    ShiftMono(1, RADIX / 2, n);
    ShiftMono(1, RADIX / 2, n');
    if n < n' {
      ExpMono(n + 1, n');
      assert false;
    } else if n' < n {
      ExpMono(n' + 1, n);
      assert false;
    }
  }

  lemma {:induction false} TopPartUnique(m: int, t: int, t': int)
    requires TopPart(m, t) && TopPart(m, t')
    ensures t == t'
  {
    hide Shift, TopPart;
    var c: int, n := TopRange(m, t);
    var c': int, n' := TopRange(m, t');
    SamePlace(m, n, n');
    ShiftCancel(c, c' + 1, n);
    ShiftCancel(c', c + 1, n);
  }

  lemma {:induction false} ScaledOnce(b: nat, k: nat, t: int, k': nat, t': int)
    requires Scaled(b, k, t) && Scaled(b, k', t')
    ensures k >= k'
  {
    hide Shift, Pow2, TopPart;
    var m, m' := Pow2(k) * b, Pow2(k') * b;
    if k < k' {
      var c, n := TopRange(m, t);
      var c', n' := TopRange(m', t');
      Pow2Add(k' - k, k);
      MulAssoc(Pow2(k' - k), Pow2(k), b);
      Pow2Between(k' - k);
      DoubledPlaces(m, n, Pow2(k' - k), m', n');
      assert false;
    }
  }

  /** A multiple by 2 to half the radix of a number that fills its top digit does not fill one. */
  lemma {:induction false} DoubledPlaces(m: nat, n: nat, p: nat, m': int, n': nat)
    requires Shift(RADIX / 2, n) <= m < Exp(n + 1) && 2 <= p <= RADIX / 2 && m' == p * m
    ensures !(Shift(RADIX / 2, n') <= m' < Exp(n' + 1))
  {
    hide Shift;
    MulMono(2, p, m);
    ShiftTimes(RADIX / 2, 2, n);
    ShiftUp(1, n);
    assert m' >= Exp(n + 1);
    if n' <= n {
      ExpMono(n' + 1, n + 1);
    } else {
      PlaceMono(n + 1, n');
      MulMono(p, RADIX / 2, m);
      MulComm(m, RADIX / 2);
      ShiftTimes(1, RADIX / 2, n + 1);
      MulComm(Exp(n + 1), RADIX / 2);
    }
  }

  lemma {:induction false} PlaceMono(n: nat, n': nat)
    requires n <= n'
    ensures Shift(RADIX / 2, n) <= Shift(RADIX / 2, n')
  {
    hide Shift;
    ExpMono(n, n');
    MulMono(Exp(n), Exp(n'), RADIX / 2);
    ShiftTimes(1, RADIX / 2, n);
    ShiftTimes(1, RADIX / 2, n');
  }

  lemma {:induction false} Pow2Between(j: nat)
    requires 0 < j < 32
    ensures 2 <= Pow2(j) <= RADIX / 2
  {
    hide Pow2;
    Pow2Add(1, j - 1);
    assert Pow2(1) == 2 by { OnePower(); }
    MulMono(1, Pow2(j - 1), 2);
    MulComm(2, Pow2(j - 1));
    Pow2Part(j);
    Pow2Add(1, 31 - j);
    MulMono(1, Pow2(31 - j), 2);
    MulComm(2, Pow2(31 - j));
    MulMono(2, Pow2(32 - j), Pow2(j));
    MulComm(Pow2(j), Pow2(32 - j));
  }

  lemma {:induction false} OnePower()
    ensures Pow2(0) == 1 && Pow2(1) == 2
  {
    assert Pow2(1) == 2 * Pow2(0);
  }

  /** There is one scaling, so the condition is that of the division as it is done. */
  lemma {:induction false} TiesIs(a: nat, b: nat, k: nat, t: int)
    requires b > 0 && Scaled(b, k, t)
    ensures Ties(a, b) <==> TieAt(a, b, k, t)
  {
    hide Pow2, TopPart, NoTie;
    if Ties(a, b) {
      var k': nat, t': int :| Scaled(b, k', t') && TieAt(a, b, k', t');
      ScaledOnce(b, k, t, k', t');
      ScaledOnce(b, k', t', k, t);
      TopPartUnique(Pow2(k) * b, t, t');
    }
  }

  /** A dividend of at most half the radix times the divisor never ties. */
  lemma {:induction false} SmallNeverTies(a: nat, b: nat)
    requires b > 0 && a <= RADIX / 2 * b
    ensures !Ties(a, b)
  {
    hide Shift, Pow2, TopPart;
    forall k: nat, t: int | Scaled(b, k, t) ensures !TieAt(a, b, k, t) {
      var x, m := Pow2(k) * a, Pow2(k) * b;
      ScaledSigns(a, b, k);
      ScaledBound(a, b, Pow2(k));
      var c, n := TopRange(m, t);
      forall p: nat ensures Incoming(x, m, p) < t {
        FirstRemainder(x, m, p);
      }
    }
  }

  lemma {:induction false} ScaledBound(a: nat, b: nat, p: nat)
    requires a <= RADIX / 2 * b && p > 0
    ensures p * a <= RADIX / 2 * (p * b)
  {
    MulMono(a, RADIX / 2 * b, p);
    MulComm(p, a);
    MulAssoc(RADIX / 2, b, p);
    MulComm(p, b);
  }

  lemma {:induction false} FirstRemainder(x: nat, m: nat, p: nat)
    requires x <= RADIX / 2 * m && m > 0
    ensures 2 * Incoming(x, m, p) <= m
  {
    hide Shift;
    var e := Exp(p + 1);
    ExpMono(0, p + 1);
    ShiftNone(1);
    assert e >= RADIX;
    var y := x / e;
    DivBounds(x, e);
    QuotientNonneg(x, e);
    MulMono(RADIX, e, y);
    assert RADIX * y <= x by { MulComm(e, y); }
    DivUnique(y, m, 0, y);
  }

  /** A power of two as divisor never ties. */
  lemma {:induction false} PowerNeverTies(a: nat, j: nat)
    ensures !Ties(a, Pow2(j))
  {
    hide Shift, Pow2, TopPart;
    var b := Pow2(j);
    forall k: nat, t: int | Scaled(b, k, t) ensures !TieAt(a, b, k, t) {
      var m := Pow2(k) * b;
      ScaledSigns(a, b, k);
      Pow2Add(k, j);
      TopOfPower(k + j, t);
      forall p: nat ensures Incoming(Pow2(k) * a, m, p) < t {
        RemainderBelow(Pow2(k) * a / Exp(p + 1), m);
      }
    }
  }

  lemma {:induction false} RemainderBelow(x: int, m: int)
    requires m > 0
    ensures x % m < m
  {
  }

  lemma {:induction false} TopOfPower(e: nat, t: int)
    requires TopPart(Pow2(e), t)
    ensures t == Pow2(e)
  {
    hide Shift, Pow2, TopPart;
    var i, n' := e % 32, e / 32;
    Pow2Digits(n', i);
    var m := Pow2(e);
    assert 32 * n' + i == e;
    assert m == Shift(Pow2(i), n');
    var c, n := TopRange(m, t);
    if i == 31 {
      HalfRadix();
      ShiftAdd(RADIX / 2, 1, n');
      ShiftMono(0, 1, n');
      WholeTop(m, n');
      TopPartUnique(m, t, m);
    } else {
      BelowHalf(i);
      ShiftMono(1, Pow2(i), n');
      ShiftMono(Pow2(i) + 1, RADIX / 2, n');
      ShiftMono(Pow2(i), Pow2(i) + 1, n');
      if n >= n' {
        PlaceMono(n', n);
      } else {
        ExpMono(n + 1, n');
      }
      assert false;
    }
  }

  lemma {:induction false} HalfRadix()
    ensures Pow2(31) == RADIX / 2
  {
    Pow2Add(1, 31);
    Pow2Radix();
  }

  lemma {:induction false} BelowHalf(i: nat)
    requires i < 31
    ensures 1 <= Pow2(i) < RADIX / 2
  {
    hide Pow2;
    Pow2Between(i + 1);
    Pow2Add(1, i);
    OnePower();
  }

  lemma {:induction false} WholeTop(m: int, n: nat)
    requires m == Shift(RADIX / 2, n) < Shift(RADIX / 2 + 1, n)
    ensures TopPart(m, m)
  {
    var c: digit := RADIX / 2;
    assert TopAt(m, m, c, n);
  }

  lemma {:induction false} DigitTop(b: nat, k: nat, t: int)
    requires b < RADIX && Scaled(b, k, t)
    ensures t == Pow2(k) * b
  {
    hide Shift, Pow2, TopPart;
    var c, n := TopRange(Pow2(k) * b, t);
    DigitScaled(b, k);
    if n > 0 {
      PlaceMono(1, n);
      PlaceOne(RADIX / 2);
      assert false;
    }
    ShiftNone(c);
    ShiftNone(c as int + 1);
  }

  lemma {:induction false} DigitScaled(b: nat, k: nat)
    requires b < RADIX && k < 32
    ensures Pow2(k) * b < RADIX / 2 * RADIX
  {
    hide Pow2;
    OnePower();
    if k > 0 {
      Pow2Between(k);
    }
    MulMono(Pow2(k), RADIX / 2, b);
  }

  /** A divisor below the radix never ties. */
  lemma {:induction false} DigitNeverTies(a: nat, b: nat)
    requires 0 < b < RADIX
    ensures !Ties(a, b)
  {
    hide Shift, Pow2, TopPart, NoTie;
    forall k: nat, t: int | Scaled(b, k, t) ensures !TieAt(a, b, k, t) {
      ScaledSigns(a, b, k);
      DigitTop(b, k, t);
      OneDigitNoTie(Pow2(k) * a, Pow2(k) * b);
    }
  }

  /** 2^31 B^2 + 3 B by 2^31 B + 5: a tie, so what s_udiv leaves is not the quotient. */
  lemma {:induction false} TieExample()
    ensures Ties(0x8000_0000 * (RADIX * RADIX) + 3 * RADIX, 0x8000_0000 * RADIX + 5)
  {
    hide Shift;
    var a, m, t := 0x8000_0000 * (RADIX * RADIX) + 3 * RADIX, 0x8000_0000 * RADIX + 5, 0x8000_0000 * RADIX;
    ShiftUp(1, 0);
    ShiftNone(1);
    PlaceOne(0x8000_0000);
    PlaceOne(0x8000_0001);
    OnePower();
    assert TopAt(m, t, 0x8000_0000, 1);
    assert Scaled(m, 0, t);
    DivUnique(a, RADIX, 0x8000_0000 * RADIX + 3, 0);
    DivUnique(0x8000_0000 * RADIX + 3, m, 0, 0x8000_0000 * RADIX + 3);
    assert Incoming(a, m, 0) >= t;
    assert TieAt(a, m, 0, t);
  }

  /** 2^64 - 2^32 + 1 divides B^3 + 1, so B^4 by it ties: the reduction constant of this modulus is not what comes out. */
  lemma {:induction false} TieModulus()
    ensures 0xffff_ffff_0000_0001 > 0 && Ties(Exp(4), 0xffff_ffff_0000_0001)
  {
    hide Shift;
    var m, t := 0xffff_ffff_0000_0001, 0xffff_ffff * RADIX;
    ShiftNone(1);
    ShiftUp(1, 0);
    ShiftUp(1, 1);
    ShiftUp(1, 2);
    ShiftUp(1, 3);
    PlaceOne(0xffff_ffff);
    PlaceOne(RADIX);
    OnePower();
    assert TopAt(m, t, 0xffff_ffff, 1);
    assert Scaled(m, 0, t);
    DivUnique(Exp(4), Exp(1), Exp(3), 0);
    DivUnique(Exp(3), m, RADIX, m - 1);
    assert Incoming(Exp(4), m, 0) >= t;
    assert TieAt(Exp(4), m, 0, t);
  }

  lemma {:induction false} PlaceOne(u: int)
    ensures Shift(u, 1) == u * RADIX
  {
    ShiftNone(u);
    ShiftUp(u, 0);
  }
}

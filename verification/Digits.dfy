/** Little-endian runs of base-2^32 digits, the number they denote, and carry propagation. */
module Digits {

  /** MP_DIGIT_MAX + 1. */
  const RADIX: nat := 0x1_0000_0000

  /** MP_WORD_MAX + 1; a word is exactly two digits wide. */
  const WORD: nat := 0x1_0000_0000_0000_0000

  type digit = x: int | 0 <= x < RADIX
  type word = x: int | 0 <= x < WORD

  function Min(a: nat, b: nat): nat { if b < a then b else a }

  function Max(a: nat, b: nat): nat { if b > a then b else a }

  function At(s: seq<int>, i: nat): int { if i < |s| then s[i] else 0 }

  // ---- Weights ------------------------------------------------------------

  /** u moved up n places, that is, u times RADIX to the power n. */
  ghost function Shift(u: int, n: nat): (r: int)
    ensures 0 <= u ==> u <= r
    ensures u < 0 ==> r <= u
  {
    if n == 0 then u else RADIX * Shift(u, n - 1)
  }

  /** RADIX to the power n. */
  ghost function Exp(n: nat): int { Shift(1, n) }

  lemma {:induction false} ShiftAdd(u: int, v: int, n: nat)
    ensures Shift(u + v, n) == Shift(u, n) + Shift(v, n)
  {
    if n > 0 {
      ShiftAdd(u, v, n - 1);
    }
  }

  lemma {:induction false} ShiftShift(u: int, m: nat, n: nat)
    ensures Shift(Shift(u, m), n) == Shift(u, m + n)
  {
    if n > 0 {
      ShiftShift(u, m, n - 1);
    }
  }

  lemma {:induction false} ShiftMono(u: int, v: int, n: nat)
    requires u <= v
    ensures Shift(u, n) <= Shift(v, n)
    ensures u < v ==> Shift(u, n) + Exp(n) <= Shift(v, n)
  {
    ShiftAdd(u, v - u, n);
    if u < v {
      ShiftAdd(1, v - u - 1, n);
    }
  }

  lemma {:induction false} ShiftTimes(u: int, v: int, n: nat)
    ensures Shift(u, n) * v == Shift(u * v, n)
  {
    if n > 0 {
      ShiftTimes(u, v, n - 1);
      MulAssoc(RADIX, Shift(u, n - 1), v);
    }
  }

  lemma {:induction false} ShiftCancel(u: int, v: int, n: nat)
    requires Shift(u, n) < Shift(v, n)
    ensures u < v
  {
    if v <= u {
      ShiftMono(v, u, n);
      assert false;
    }
  }

  lemma {:induction false} ExpMono(m: nat, n: nat)
    requires m <= n
    ensures Exp(m) <= Exp(n)
    ensures m < n ==> RADIX * Exp(m) <= Exp(n)
    decreases n
  {
    if m < n {
      ExpMono(m, n - 1);
    }
  }

  lemma {:induction false} MulAssoc(a: int, b: int, c: int)
    ensures a * (b * c) == (a * b) * c
  {
  }

  lemma {:induction false} MulComm(a: int, b: int)
    ensures a * b == b * a
  {
  }

  lemma {:induction false} MulDist(a: int, b: int, p: int)
    ensures (a + b) * p == a * p + b * p
  {
  }

  lemma {:induction false} MulMono(a: int, b: int, c: int)
    requires a <= b && 0 <= c
    ensures a * c <= b * c
  {
  }

  // ---- The number of a run ------------------------------------------------

  /** The number a run denotes, least significant place first; any integer may stand in a place. */
  ghost function Val(s: seq<int>): int {
    if s == [] then 0 else s[0] + RADIX * Val(s[1..])
  }

  lemma {:induction false} ValConcat(s: seq<int>, t: seq<int>)
    ensures Val(s + t) == Val(s) + Shift(Val(t), |s|)
  {
    if s == [] {
      assert s + t == t;
    } else {
      ValConcat(s[1..], t);
      assert (s + t)[1..] == s[1..] + t;
    }
  }

  lemma {:induction false} ValSnoc(s: seq<int>, d: int)
    ensures Val(s + [d]) == Val(s) + Shift(d, |s|)
  {
    ValConcat(s, [d]);
    assert Val([d]) == d;
  }

  /** Splits a run at position n. */
  lemma {:induction false} ValSplit(s: seq<int>, n: nat)
    requires n <= |s|
    ensures Val(s) == Val(s[..n]) + Shift(Val(s[n..]), n)
  {
    assert s == s[..n] + s[n..];
    ValConcat(s[..n], s[n..]);
  }

  /** One more place of a run. */
  lemma {:induction false} ValStep(s: seq<int>, n: nat)
    requires n < |s|
    ensures Val(s[..n + 1]) == Val(s[..n]) + Shift(s[n], n)
  {
    assert s[..n + 1] == s[..n] + [s[n]];
    ValSnoc(s[..n], s[n]);
  }

  lemma {:induction false} ValBound(s: seq<digit>)
    ensures 0 <= Val(s) < Exp(|s|)
  {
    if s != [] {
      ValBound(s[1..]);
    }
  }

  lemma {:induction false} ValZeros(s: seq<int>)
    requires forall i :: 0 <= i < |s| ==> s[i] == 0
    ensures Val(s) == 0
  {
    if s != [] {
      ValZeros(s[1..]);
    }
  }

  lemma {:induction false} ValOne(d: int)
    ensures Val([d]) == d
  {
  }

  lemma {:induction false} ShiftNone(u: int)
    ensures Shift(u, 0) == u
  {
  }

  lemma {:induction false} ShiftZero(n: nat)
    ensures Shift(0, n) == 0
  {
    ShiftAdd(0, 0, n);
  }

  /** Most significant zeros do not count. */
  lemma {:induction false} ValTrim(s: seq<int>, n: nat)
    requires n <= |s|
    requires forall i :: n <= i < |s| ==> s[i] == 0
    ensures Val(s) == Val(s[..n])
  {
    ValSplit(s, n);
    ValZeros(s[n..]);
    ShiftZero(n);
  }

  lemma {:induction false} ZeroDigits(s: seq<digit>)
    requires Val(s) == 0
    ensures forall i :: 0 <= i < |s| ==> s[i] == 0
  {
    if s != [] {
      ValBound(s[1..]);
      ZeroDigits(s[1..]);
    }
  }

  /** A run denoting less than RADIX^n has only zeros from position n on. */
  lemma {:induction false} ValSmall(s: seq<digit>, n: nat)
    requires Val(s) < Exp(n)
    ensures forall i :: n <= i < |s| ==> s[i] == 0
  {
    if n < |s| {
      var hi := s[n..];
      ValSplit(s, n);
      ValBound(s[..n]);
      ValBound(hi);
      ShiftCancel(Val(hi), 1, n);
      ZeroDigits(hi);
      assert forall i :: n <= i < |s| ==> s[i] == hi[i - n];
    }
  }

  /** A run with a non-zero top digit fills its length. */
  lemma {:induction false} ValTop(s: seq<digit>)
    requires s != [] && s[|s| - 1] != 0
    ensures Exp(|s| - 1) <= Val(s)
  {
    var n := |s| - 1;
    ValStep(s, n);
    assert s[..n + 1] == s;
    ValBound(s[..n]);
    ShiftMono(1, s[n], n);
  }

  /** The same number of digits and the same number: the same digits. */
  lemma {:induction false} ValUnique(s: seq<digit>, t: seq<digit>)
    requires |s| == |t| && Val(s) == Val(t)
    ensures s == t
  {
    if s != [] {
      assert s[0] == t[0] && Val(s[1..]) == Val(t[1..]);
      ValUnique(s[1..], t[1..]);
      assert s == [s[0]] + s[1..] && t == [t[0]] + t[1..];
    }
  }

  /** What is below and above position n is determined by the number. */
  lemma {:induction false} SplitUnique(s: seq<digit>, n: nat, lo: int, hi: int)
    requires n <= |s| && 0 <= lo < Exp(n)
    requires Val(s) == lo + Shift(hi, n)
    ensures Val(s[..n]) == lo && Val(s[n..]) == hi
  {
    ValSplit(s, n);
    ValBound(s[..n]);
    var h := Val(s[n..]);
    if h < hi {
      ShiftMono(h, hi, n);
      assert false;
    } else if hi < h {
      ShiftMono(hi, h, n);
      assert false;
    }
  }

  // ---- Carry propagation --------------------------------------------------

  /** The carry into position n when the places of a + m * b are brought below RADIX one after
      another. Negative places give negative carries, that is, borrows. */
  ghost function Carry(a: seq<int>, m: int, b: seq<int>, n: nat): int {
    if n == 0 then 0 else (At(a, n - 1) + m * At(b, n - 1) + Carry(a, m, b, n - 1)) / RADIX
  }

  /** The first n digits that this leaves. */
  ghost function Lows(a: seq<int>, m: int, b: seq<int>, n: nat): (c: seq<digit>)
    ensures |c| == n
  {
    if n == 0 then []
    else Lows(a, m, b, n - 1) + [(At(a, n - 1) + m * At(b, n - 1) + Carry(a, m, b, n - 1)) % RADIX]
  }

  lemma {:induction false} PropagateStart(a: seq<int>, m: int, b: seq<int>)
    ensures Carry(a, m, b, 0) == 0 && Lows(a, m, b, 0) == []
  {
  }

  /** One step of a carry loop that has just met the places x and y. */
  lemma {:induction false} PropagateStep(a: seq<int>, m: int, b: seq<int>, n: nat, x: int, y: int)
    requires At(a, n) == x && At(b, n) == y
    ensures Carry(a, m, b, n + 1) == (x + m * y + Carry(a, m, b, n)) / RADIX
    ensures Lows(a, m, b, n + 1) == Lows(a, m, b, n) + [(x + m * y + Carry(a, m, b, n)) % RADIX]
  {
  }

  ghost function Upto(s: seq<int>, n: nat): seq<int> { if n < |s| then s[..n] else s }

  lemma {:induction false} UptoStep(s: seq<int>, n: nat)
    ensures Val(Upto(s, n + 1)) == Val(Upto(s, n)) + Shift(At(s, n), n)
  {
    if n < |s| {
      ValStep(s, n);
      assert n + 1 == |s| ==> s[..n + 1] == s;
    } else {
      ShiftZero(n);
    }
  }

  /** Propagation keeps the number: digits plus the carry out. */
  lemma {:induction false} LowsVal(a: seq<int>, m: int, b: seq<int>, n: nat)
    ensures Val(Lows(a, m, b, n) + [Carry(a, m, b, n)]) == Val(Upto(a, n)) + m * Val(Upto(b, n))
  {
    hide Shift;
    if n == 0 {
      assert Upto(a, 0) == [] && Upto(b, 0) == [];
      assert Lows(a, m, b, 0) + [0] == [0] && Val([0]) == 0;
    } else {
      var k, L := n - 1, Lows(a, m, b, n - 1);
      var x, y, w := At(a, k), At(b, k), Carry(a, m, b, k);
      var z := m * y;
      LowsVal(a, m, b, k);
      ValSnoc(L, w);
      ValSnoc(L, (x + z + w) % RADIX);
      ValSnoc(L + [(x + z + w) % RADIX], (x + z + w) / RADIX);
      UptoStep(a, k);
      UptoStep(b, k);
      PlaceSum(x, z, w, k);
      ScaledPlace(m, Val(Upto(b, k)), y, k);
    }
  }

  /** One place of LowsVal: the digit and the carry out weigh what the summands and the carry in do. */
  lemma {:induction false} PlaceSum(x: int, z: int, w: int, k: nat)
    ensures Shift((x + z + w) % RADIX, k) + Shift((x + z + w) / RADIX, k + 1) == Shift(x, k) + Shift(z, k) + Shift(w, k)
  {
    hide Shift;
    CarriedPlace(x + z + w, k);
    ShiftAdd(x + z, w, k);
    ShiftAdd(x, z, k);
  }

  /** Splitting a place into digit and carry keeps its weight. */
  lemma {:induction false} CarriedPlace(u: int, k: nat)
    ensures Shift(u % RADIX, k) + Shift(u / RADIX, k + 1) == Shift(u, k)
  {
    ShiftShift(u / RADIX, 1, k);
    ShiftAdd(u % RADIX, RADIX * (u / RADIX), k);
  }

  lemma {:induction false} ScaledPlace(m: int, v: int, y: int, k: nat)
    ensures m * (v + Shift(y, k)) == m * v + Shift(m * y, k)
  {
    ShiftTimes(y, m, k);
    MulDist(v, Shift(y, k), m);
  }
}

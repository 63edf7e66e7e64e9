/** Powers of two and the shifts by them. */
module Powers {
  import opened Digits

  function Pow2(n: nat): (p: nat)
    ensures p >= 1
  {
    if n == 0 then 1 else 2 * Pow2(n - 1)
  }

  lemma {:induction false} Pow2Add(m: nat, n: nat)
    ensures Pow2(m + n) == Pow2(m) * Pow2(n)
  {
    if m > 0 {
      Pow2Add(m - 1, n);
      MulAssoc(2, Pow2(m - 1), Pow2(n));
    }
  }

  lemma {:induction false} Pow2Radix()
    ensures Pow2(32) == RADIX
  {
    assert Pow2(8) == 256;
    Pow2Add(8, 8);
    Pow2Add(16, 16);
  }

  /** A power of two is a power below the radix, moved up by whole digits. */
  lemma {:induction false} Pow2Digits(n: nat, b: nat)
    ensures Pow2(32 * n + b) == Shift(Pow2(b), n)
  {
    if n > 0 {
      Pow2Digits(n - 1, b);
      Pow2Add(32, 32 * (n - 1) + b);
      Pow2Radix();
    }
  }

  /** A partial shift splits the radix. */
  lemma {:induction false} Pow2Part(b: nat)
    requires b <= 32
    ensures Pow2(b) * Pow2(32 - b) == RADIX && Pow2(b) <= RADIX
  {
    Pow2Add(b, 32 - b);
    Pow2Radix();
    MulMono(1, Pow2(32 - b), Pow2(b));
    MulComm(Pow2(b), Pow2(32 - b));
  }

  /** Floor division by its defining bounds. */
  lemma {:induction false} DivUnique(m: int, d: int, q: int, r: int)
    requires d > 0 && m == d * q + r && 0 <= r < d
    ensures m / d == q && m % d == r
  {
    var q', r' := m / d, m % d;
    assert m == d * q' + r' && 0 <= r' < d;
    QuotientUnique(d, r, q, r', q');
  }

  lemma {:induction false} QuotientUnique(p: int, x: int, q: int, y: int, r: int)
    requires 0 <= x < p && 0 <= y < p && p * q + x == p * r + y
    ensures x == y && q == r
  {
    MulComm(p, q);
    MulComm(p, r);
    MulDist(q, -r, p);
    if q > r {
      MulMono(1, q - r, p);
      assert false;
    } else if q < r {
      MulMono(q - r, -1, p);
      assert false;
    }
  }
}

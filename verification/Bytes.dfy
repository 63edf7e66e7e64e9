/** Byte strings as numbers: big-endian, little-endian and two's complement. */
module Bytes {
  import opened Powers

  type byte = x: int | 0 <= x < 256

  /** u times 256 to the power n. */
  ghost function Scale(u: int, n: nat): (r: int)
    ensures 0 <= u ==> u <= r
  {
    if n == 0 then u else 256 * Scale(u, n - 1)
  }

  lemma {:induction false} ScaleAdd(u: int, v: int, n: nat)
    ensures Scale(u + v, n) == Scale(u, n) + Scale(v, n)
  {
    if n > 0 {
      ScaleAdd(u, v, n - 1);
    }
  }

  lemma {:induction false} ScaleStep(u: int, n: nat)
    ensures Scale(256 * u, n) == Scale(u, n + 1) == 256 * Scale(u, n)
  {
    if n > 0 {
      ScaleStep(u, n - 1);
    }
  }

  lemma {:induction false} ScaleMono(u: int, v: int, n: nat)
    requires u <= v
    ensures Scale(u, n) <= Scale(v, n)
    ensures u < v ==> Scale(u, n) + Scale(1, n) <= Scale(v, n)
  {
    ScaleAdd(u, v - u, n);
    if u < v {
      ScaleAdd(1, v - u - 1, n);
    }
  }

  lemma {:induction false} ScaleNone(u: int)
    ensures Scale(u, 0) == u && Scale(0, 0) == 0
  {
  }

  lemma {:induction false} ScaleZero(n: nat)
    ensures Scale(0, n) == 0
  {
    if n > 0 {
      ScaleZero(n - 1);
    }
  }

  lemma {:induction false} ScalePow2(k: nat, n: nat)
    ensures Scale(Pow2(k), n) == Pow2(8 * n + k)
  {
    if n > 0 {
      ScalePow2(k, n - 1);
      Pow2Add(8, 8 * (n - 1) + k);
      assert Pow2(8) == 256;
    }
  }

  /** The number of a byte string, most significant byte first. */
  ghost function Big(s: seq<byte>): int {
    if s == [] then 0 else Scale(s[0], |s| - 1) + Big(s[1..])
  }

  /** The number of a byte string, least significant byte first. */
  ghost function Little(s: seq<byte>): int {
    if s == [] then 0 else Scale(s[|s| - 1], |s| - 1) + Little(s[..|s| - 1])
  }

  /** The signed number of a byte string in two's complement. */
  ghost function Twos(s: seq<byte>): int
    requires s != []
  {
    if s[0] >= 128 then Big(s) - Scale(1, |s|) else Big(s)
  }

  lemma {:induction false} BigBound(s: seq<byte>)
    ensures 0 <= Big(s) < Scale(1, |s|)
  {
    if s != [] {
      BigBound(s[1..]);
      ScaleMono(s[0], 256, |s| - 1);
      ScaleStep(1, |s| - 1);
    }
  }

  /** The top byte tells on which side of a multiple of the top weight the number lies. */
  lemma {:induction false} BigTop(s: seq<byte>, t: nat)
    requires s != []
    ensures s[0] >= t <==> Big(s) >= Scale(t, |s| - 1)
  {
    BigBound(s[1..]);
    if s[0] >= t {
      ScaleMono(t, s[0], |s| - 1);
    } else {
      ScaleMono(s[0], t, |s| - 1);
    }
  }

  lemma {:induction false} BigSnoc(s: seq<byte>, b: byte)
    ensures Big(s + [b]) == 256 * Big(s) + b
  {
    if s == [] {
      assert [b][1..] == [];
      assert s + [b] == [b];
    } else {
      BigSnoc(s[1..], b);
      assert (s + [b])[1..] == s[1..] + [b];
      ScaleStep(s[0], |s| - 1);
    }
  }

  /** A string of given length is determined by its number. */
  lemma {:induction false} BigUnique(s: seq<byte>, t: seq<byte>)
    requires |s| == |t| && Big(s) == Big(t)
    ensures s == t
  {
    if s != [] {
      BigTop(s, t[0]);
      BigTop(t, s[0]);
      BigTop(t, t[0]);
      BigTop(s, s[0]);
      assert s[0] == t[0];
      BigUnique(s[1..], t[1..]);
      assert s == [s[0]] + s[1..] && t == [t[0]] + t[1..];
    }
  }

  lemma {:induction false} BigCons(b: byte, s: seq<byte>)
    ensures Big([b] + s) == Scale(b, |s|) + Big(s)
  {
    assert ([b] + s)[1..] == s;
  }

  lemma {:induction false} LittleSnoc(s: seq<byte>, b: byte)
    ensures Little(s + [b]) == Little(s) + Scale(b, |s|)
  {
    assert (s + [b])[..|s|] == s;
  }

  /** r is s backwards. */
  ghost predicate Mirrors(r: seq<byte>, s: seq<byte>) {
    |r| == |s| && forall i :: 0 <= i < |r| ==> r[i] == s[|s| - 1 - i]
  }

  /** Turning the bytes around turns one reading into the other. */
  lemma {:induction false} MirrorValue(r: seq<byte>, s: seq<byte>)
    requires Mirrors(r, s)
    ensures Big(r) == Little(s)
  {
    if r != [] {
      MirrorValue(r[1..], s[..|s| - 1]);
    }
  }

  /** A magnitude leaves the sign bit of p bytes free. */
  ghost predicate Fits(m: nat, p: nat) {
    p >= 1 && m < Scale(128, p - 1)
  }

  /** The least number of bytes whose sign bit a magnitude leaves free. */
  ghost predicate IsLen(m: nat, p: nat) {
    Fits(m, p) && (p > 1 ==> !Fits(m, p - 1))
  }

  lemma {:induction false} FitsMono(m: nat, p: nat, q: nat)
    requires Fits(m, p) && p <= q
    ensures Fits(m, q)
    decreases q
  {
    if p < q {
      FitsMono(m, p, q - 1);
    }
  }

  lemma {:induction false} LenUnique(m: nat, p: nat, q: nat)
    requires IsLen(m, p) && IsLen(m, q)
    ensures p == q
  {
    if p < q {
      FitsMono(m, p, q - 1);
      assert false;
    } else if q < p {
      FitsMono(m, q, p - 1);
      assert false;
    }
  }
}

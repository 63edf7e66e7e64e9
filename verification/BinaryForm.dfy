/** mp_int_to_binary and mp_int_read_binary: signed numbers as two's complement byte strings. */
module BinaryForm {
  import opened Digits
  import opened Buffers
  import opened Powers
  import opened MpInts
  import opened Shifts
  import opened Bytes

  // ---- s_2comp ------------------------------------------------------------

  /** Complementing one more byte with the carry s keeps N + s W = W - O. */
  lemma {:induction false} ComplementStep(b: byte, s: int, b': byte, s': int, n: nat, N: int, O: int)
    requires N + Scale(s, n) == Scale(1, n) - O && b' + 256 * s' == 255 - b + s
    ensures Scale(b', n) + N + Scale(s', n + 1) == Scale(1, n + 1) - (Scale(b, n) + O)
  {
    ScaleStep(s', n);
    ScaleStep(1, n);
    ScaleAdd(b', 256 * s', n);
    ScaleAdd(255 - b, s, n);
    ScaleAdd(255 - b, b, n);
    ScaleAdd(255, 1, n);
  }

  /** s_2comp: the two's complement of the first len bytes; the last carry is dropped. */
  method TwosComp(buf: array<byte>, len: nat)
    requires len <= buf.Length
    modifies buf
    ensures Big(buf[..len]) == var v := old(Big(buf[..len])); if v == 0 then 0 else Scale(1, len) - v
    ensures buf[len..] == old(buf[len..])
  {
    hide Big, Scale;
    ghost var B := buf[..];
    var i, s := len, 1;
    BigEmpty();
    ScaleNone(1);
    assert buf[len..len] == [] && B[len..len] == [];
    while i > 0
      invariant 0 <= i <= len && 0 <= s <= 1 && buf[..i] == B[..i] && buf[len..] == B[len..]
      invariant Big(buf[i..len]) + Scale(s, len - i) == Scale(1, len - i) - Big(B[i..len])
    {
      i := i - 1;
      ghost var tail := buf[i + 1..len];
      var t: int := 255 - buf[i] + s;
      ComplementStep(buf[i], s, t % 256, t / 256, len - i - 1, Big(tail), Big(B[i + 1..len]));
      s := t / 256;
      buf[i] := t % 256;
      assert buf[i..len] == [buf[i]] + tail;
      assert B[i..len] == [B[i]] + B[i + 1..len];
      BigCons(buf[i], tail);
      BigCons(B[i], B[i + 1..len]);
    }
    assert buf[0..len] == buf[..len] && B[0..len] == old(buf[..len]);
    BigBound(buf[..len]);
    BigBound(B[..len]);
    ScaleZero(len);
  }

  lemma {:induction false} BigEmpty()
    ensures Big([]) == 0 && Little([]) == 0
  {
  }

  /** Negating a number that leaves the sign bit free, and back. */
  lemma {:induction false} ComplementNegates(s: seq<byte>, t: seq<byte>)
    requires |s| == |t| > 0
    requires Big(t) == if Big(s) == 0 then 0 else Scale(1, |s|) - Big(s)
    ensures s[0] < 128 ==> Twos(t) == -Big(s)
    ensures s[0] >= 128 ==> Twos(s) == -Big(t) && Big(t) > 0
  {
    BigTop(s, 128);
    BigTop(t, 128);
    BigBound(s);
    BigBound(t);
    ScaleStep(1, |s| - 1);
    ScaleAdd(128, 128, |s| - 1);
    ScaleMono(0, 128, |s| - 1);
    ScaleZero(|s| - 1);
  }

  // ---- mp_int_read_binary -------------------------------------------------

  /** s_qmul by eight bits, then the next byte into the free place; the digits stay where they are. */
  method AppendByte(z: MpInt, dz: array<digit>, b: byte)
    requires z.Valid() && z.digits == dz && 256 * z.Mag() < Exp(dz.Length)
    modifies z`digits, z`used, dz
    ensures z.Valid() && z.digits == dz && z.Mag() == 256 * old(z.Mag()) + b
  {
    hide Val, Shift, Clamped, Run;
    Pow2Byte();
    QMul(z, 8);
    LowByteFree(Run(dz[..], 0, z.used), 256, old(z.Mag()), b);
    RunAt(dz[..], 0, z.used, 0);
    ghost var D := dz[..];
    dz[0] := dz[0] + b;
    RunFirst(D, dz[..], z.used);
  }

  lemma {:induction false} Pow2Byte()
    ensures Pow2(8) == 256
  {
  }

  lemma {:induction false} RunFirst(d: seq<digit>, d': seq<digit>, n: nat)
    requires 1 <= n <= |d| == |d'| && d' == d[0 := d'[0]]
    ensures Run(d', 0, n) == Run(d, 0, n)[0 := d'[0]]
  {
  }

  /** A multiple of 256 has room in its lowest digit. */
  lemma {:induction false} LowByteFree(s: seq<digit>, p: int, m: int, b: byte)
    requires Clamped(s) && p == 256 && Val(s) == p * m
    ensures s[0] + b < RADIX && Clamped(s[0 := s[0] + b]) && Val(s[0 := s[0] + b]) == p * m + b
  {
    ValCons(s);
    assert s[0] % 256 == 0;
    var t := s[0 := s[0] + b];
    assert t[1..] == s[1..];
    ValCons(t);
  }

  /** The digits mp_int_read_binary makes room for hold every number of len bytes. */
  lemma {:induction false} RoomForBytes(s: seq<byte>, len: nat, need: nat)
    requires |s| <= len && 32 * need >= 8 * len
    ensures Big(s) < Exp(need)
  {
    BigBound(s);
    ScalePow2(0, |s|);
    Pow2Mono(8 * |s|, 32 * need);
    Pow2Digits(need, 0);
    assert Pow2(0) == 1;
  }

  /** The reading loop: the magnitude of the bytes. */
  method ReadMagnitude(z: MpInt, buf: array<byte>, len: nat)
    requires z.Valid() && z.Mag() == 0 && 0 < len <= buf.Length
    requires 32 * z.digits.Length >= 8 * len
    modifies z`digits, z`used, z.digits
    ensures z.Valid() && z.digits == old(z.digits) && z.Mag() == Big(buf[..len])
  {
    hide Val, Shift, Clamped, Run, Big, Scale;
    var dz := z.digits;
    var tmp := 0;
    BigEmpty();
    assert buf[..0] == [];
    while tmp < len
      invariant 0 <= tmp <= len && z.Valid() && z.digits == dz && z.Mag() == Big(buf[..tmp])
    {
      BigSnoc(buf[..tmp], 0);
      BigSnoc(buf[..tmp], buf[tmp]);
      RoomForBytes(buf[..tmp] + [0], len, dz.Length);
      assert buf[..tmp + 1] == buf[..tmp] + [buf[tmp]];
      AppendByte(z, dz, buf[tmp]);
      tmp := tmp + 1;
    }
  }

  /** mp_int_read_binary: the signed number of the bytes; the buffer ends as it began. */
  method ReadBinary(z: MpInt, buf: array<byte>, len: nat)
    requires z.Valid() && 0 < len <= buf.Length
    modifies z, z.digits, buf
    ensures z.Valid() && Moved(z) && z.Value() == old(Twos(buf[..len])) && buf[..] == old(buf[..])
  {
    hide Val, Shift, Clamped, Run, Big, Scale;
    var need := (len * 8 + 31) / 32;
    Pad(z, need);
    Zero(z);
    ghost var B := buf[..];
    assert B[..len] == buf[..len] && B[..len][0] == buf[0] && B[len..] == buf[len..];
    if buf[0] >= 128 {
      z.negative := true;
      TwosComp(buf, len);
    }
    ghost var C := buf[..len];
    ReadMagnitude(z, buf, len);
    if z.negative {
      ComplementNegates(B[..len], C);
      TwosComp(buf, len);
      BigUnique(buf[..len], B[..len]);
    }
    assert buf[..] == buf[..len] + buf[len..] && B == B[..len] + B[len..];
  }

  // ---- mp_int_to_binary ---------------------------------------------------

  /** The bytes out so far and what is left make up the number. */
  ghost predicate Emitted(out: seq<byte>, left: nat, m: int) {
    Little(out) + Scale(left, |out|) == m
  }

  /** One more byte: the lowest of what is left. */
  lemma {:induction false} EmitByte(out: seq<byte>, d: nat, v: nat, j: nat, m: int)
    requires j < 4 && Emitted(out, d + Scale(v, 4 - j), m)
    ensures Emitted(out + [d % 256], d / 256 + Scale(v, 3 - j), m)
  {
    var left' := d / 256 + Scale(v, 3 - j);
    assert d + Scale(v, 4 - j) == d % 256 + 256 * left';
    ScaleAdd(d % 256, 256 * left', |out|);
    ScaleStep(left', |out|);
    LittleSnoc(out, d % 256);
  }

  lemma {:induction false} DigitScale(v: int)
    ensures Scale(v, 4) == RADIX * v && Scale(v, 0) == v
  {
    assert Scale(v, 2) == 256 * Scale(v, 1);
    assert Scale(v, 4) == 256 * Scale(v, 3);
  }

  lemma {:induction false} ScalePositive(v: nat, n: nat)
    ensures v > 0 ==> Scale(v, n) > 0
    ensures v == 0 ==> Scale(v, n) == 0
  {
    ScaleZero(n);
  }

  /** The inner loop of s_tobin: the bytes of one digit; trunc tells that the buffer filled up before them. */
  method PutDigit(dg: digit, top: bool, buf: array<byte>, start: nat, limit: nat, ghost v: nat, ghost m: int)
      returns (pos: nat, trunc: bool, ghost left: nat)
    requires start < limit <= buf.Length && (top <==> v == 0)
    requires Emitted(buf[..start], dg + RADIX * v, m)
    modifies buf
    ensures start < pos <= limit && Emitted(buf[..pos], left, m)
    ensures if trunc then left > 0 && pos == limit else left == v
    ensures top && !trunc && dg != 0 ==> buf[pos - 1] != 0
    ensures top && dg == 0 ==> pos == start + 1
    ensures buf[limit..] == old(buf[limit..])
  {
    hide Emitted, Scale, Little;
    DigitScale(v);
    pos := start;
    var d, i := dg, 4;
    left := dg + RADIX * v;
    while i > 0 && pos < limit
      invariant -1 <= i <= 4 && start <= pos <= limit && d >= 0 && Emitted(buf[..pos], left, m)
      invariant i == 4 ==> pos == start && d == dg
      invariant i >= 0 ==> left == d + Scale(v, i) && pos == start + 4 - i && d < Pow256(i)
      invariant top && 0 <= i < 4 ==> d > 0 && dg > 0
      invariant i == -1 ==> top && left == 0 && pos > start && if dg == 0 then pos == start + 1 else buf[pos - 1] != 0
      invariant buf[limit..] == old(buf[limit..])
    {
      EmitByte(buf[..pos], d, v, 4 - i, m);
      ghost var out := buf[..pos];
      ghost var low := d;
      buf[pos] := d % 256;
      pos := pos + 1;
      assert buf[..pos] == out + [low % 256];
      d := d / 256;
      left := d + Scale(v, i - 1);
      if d == 0 && top {
        ScalePositive(v, i - 1);
        i := 0;
      }
      i := i - 1;
    }
    trunc := i > 0;
    ScalePositive(v, if i > 0 then i else 0);
  }

  function Pow256(i: nat): nat { if i == 0 then 1 else 256 * Pow256(i - 1) }

  /** What is left of a number with more than one digit is positive until its top digit is out. */
  lemma {:induction false} TailPositive(s: seq<digit>, k: nat)
    requires Clamped(s) && k < |s| && |s| > 1
    ensures Val(s[k..]) > 0
  {
    hide Val;
    ZeroMag(s[k..]);
  }

  /** The outer loop of s_tobin: all bytes, least significant first, or as many as there is room for. */
  method PutDigits(z: MpInt, buf: array<byte>, limit: nat) returns (pos: nat, uz: nat, ghost left: nat)
    requires z.Valid() && 1 <= limit <= buf.Length
    modifies buf
    ensures 1 <= pos <= limit && Emitted(buf[..pos], left, z.Mag())
    ensures if uz == 0 then left == 0 && (buf[pos - 1] != 0 || pos == 1) else left > 0 && pos == limit
    ensures buf[limit..] == old(buf[limit..])
  {
    hide Val, Shift, Run, Clamped, Emitted, Rest;
    ghost var S, m := Run(z.digits[..], 0, z.used), z.Mag();
    pos, uz, left := 0, z.used, m;
    NothingOut(m);
    assert buf[..0] == [] && S[0..] == S;
    while uz > 0 && pos < limit
      invariant 0 <= uz <= z.used && pos <= limit && Emitted(buf[..pos], left, m) && left == Val(S[z.used - uz..])
      invariant uz < z.used <==> pos > 0
      invariant if uz == 0 then left == 0 && (buf[pos - 1] != 0 || pos == 1) else pos > 0 ==> left > 0
      invariant buf[limit..] == old(buf[limit..])
    {
      var k := z.used - uz;
      ghost var v := Rest(S, k);
      NoneLeft(S, k + 1);
      RunAt(z.digits[..], 0, z.used, k);
      var trunc;
      pos, trunc, left := PutDigit(z.digits[k], uz == 1, buf, pos, limit, v, m);
      if trunc {
        break;
      }
      uz := uz - 1;
    }
  }

  lemma {:induction false} NothingOut(m: nat)
    ensures Emitted([], m, m)
  {
  }

  lemma {:induction false} NoneLeft(s: seq<digit>, k: nat)
    requires Clamped(s) && k <= |s|
    ensures k == |s| ==> Val(s[k..]) == 0
    ensures 0 < k < |s| ==> Val(s[k..]) > 0
  {
    if 0 < k < |s| {
      TailPositive(s, k);
    }
  }

  /** The digits above the k-th. */
  ghost function Rest(s: seq<digit>, k: nat): (v: nat)
    requires Clamped(s) && k < |s|
    ensures Val(s[k..]) == s[k] + RADIX * v && v == Val(s[k + 1..])
    ensures v == 0 <==> k == |s| - 1
    ensures k == |s| - 1 && k > 0 ==> s[k] != 0
  {
    ValBound(s[k + 1..]);
    ValCons(s[k..]);
    NoneLeft(s, k + 1);
    assert s[k..][1..] == s[k + 1..];
    Val(s[k + 1..])
  }

  /** REV: turns the first n bytes around. */
  method Reverse(buf: array<byte>, n: nat)
    requires n <= buf.Length
    modifies buf
    ensures Mirrors(buf[..n], old(buf[..n])) && buf[n..] == old(buf[n..])
  {
    var i, j := 0, n - 1;
    while i < j
      invariant 0 <= i <= j + 2 && i + j == n - 1
      invariant forall k :: 0 <= k < i || j < k < n ==> buf[k] == old(buf[n - 1 - k])
      invariant forall k :: i <= k <= j ==> buf[k] == old(buf[k])
      invariant buf[n..] == old(buf[n..])
    {
      buf[i], buf[j] := buf[j], buf[i];
      i, j := i + 1, j - 1;
    }
  }

  /** What the top byte says about the room a sign needs. */
  lemma {:induction false} SignRoom(out: seq<byte>, left: nat, m: nat)
    requires out != [] && Emitted(out, left, m)
    ensures left > 0 ==> !Fits(m, |out|)
    ensures left == 0 && out[|out| - 1] >= 128 ==> !Fits(m, |out|) && Fits(m, |out| + 1) && Little(out + [0]) == m
    ensures left == 0 && out[|out| - 1] < 128 && (out[|out| - 1] != 0 || |out| == 1) ==> IsLen(m, |out|) && Little(out) == m
  {
    var n := |out|;
    var r := seq(n, i requires 0 <= i < n => out[n - 1 - i]);
    MirrorValue(r, out);
    BigBound(r);
    BigTop(r, 128);
    BigTop(r, 1);
    ScaleMono(0, left, n);
    ScaleZero(n);
    ScaleMono(1, 256, n - 1);
    ScaleMono(128, 256, n - 1);
    ScaleStep(1, n - 1);
    ScaleMono(1, 128, n);
    LittleSnoc(out, 0);
    if n > 1 {
      ScaleStep(1, n - 2);
      ScaleMono(128, 256, n - 2);
    }
  }

  /** s_tobin with padding for the sign: all bytes of a magnitude, most significant first, sign bit free. */
  method ToBin(z: MpInt, buf: array<byte>, limit: nat) returns (ok: bool, pos: nat)
    requires z.Valid() && 1 <= limit <= buf.Length
    modifies buf
    ensures 1 <= pos <= limit && buf[limit..] == old(buf[limit..])
    ensures ok <==> Fits(z.Mag(), limit)
    ensures ok ==> IsLen(z.Mag(), pos) && Big(buf[..pos]) == z.Mag() && buf[0] < 128
  {
    hide Val, Shift, Run, Clamped, Emitted, Little, Big, Fits, IsLen;
    var uz;
    ghost var left;
    pos, uz, left := PutDigits(z, buf, limit);
    ghost var m := z.Mag();
    var n;
    n, ok := PadSign(buf, pos, limit, uz == 0, left, m);
    pos := n;
    ghost var out := buf[..pos];
    Reverse(buf, pos);
    MirrorValue(buf[..pos], out);
    assert buf[0] == buf[..pos][0] == out[pos - 1];
  }

  /** A zero byte on top when the sign bit is taken; it is one byte too many when the buffer is full. */
  method PadSign(buf: array<byte>, pos: nat, limit: nat, done: bool, ghost left: nat, ghost m: nat) returns (n: nat, ok: bool)
    requires 1 <= pos <= limit <= buf.Length && Emitted(buf[..pos], left, m)
    requires if done then left == 0 && (buf[pos - 1] != 0 || pos == 1) else left > 0 && pos == limit
    modifies buf
    ensures 1 <= n <= limit && buf[limit..] == old(buf[limit..])
    ensures ok <==> Fits(m, limit)
    ensures ok ==> IsLen(m, n) && Little(buf[..n]) == m && buf[n - 1] < 128
  {
    hide Emitted, Little, Fits;
    ghost var out := buf[..pos];
    SignRoom(out, left, m);
    n, ok := pos, done;
    if buf[pos - 1] >= 128 {
      if pos < limit {
        buf[pos] := 0;
        n := pos + 1;
        assert buf[..n] == out + [0];
      } else {
        ok := false;
      }
    }
    if ok {
      FitsMono(m, n, limit);
    }
  }

  /** mp_int_to_binary: succeeds exactly when the limit leaves room for the sign bit. */
  method ToBinary(z: MpInt, buf: array<byte>, limit: nat) returns (ok: bool, ghost len: nat)
    requires z.Valid() && 1 <= limit <= buf.Length
    modifies buf
    ensures buf[limit..] == old(buf[limit..])
    ensures ok <==> Fits(z.Mag(), limit)
    ensures ok ==> IsLen(z.Mag(), len) && len <= limit && Twos(buf[..len]) == z.Value()
  {
    hide Val, Shift, Run, Clamped, Big, Scale, Fits;
    var pos;
    ok, pos := ToBin(z, buf, limit);
    ghost var out := buf[..pos];
    assert out[0] == buf[0];
    len := pos;
    ghost var tail := buf[pos..][limit - pos..];
    assert tail == buf[limit..];
    if z.negative {
      TwosComp(buf, pos);
      ComplementNegates(out, buf[..pos]);
      assert buf[limit..] == buf[pos..][limit - pos..];
    }
  }

  /** mp_int_count_bits: the position of the highest bit, 1 for zero. */
  method CountBits(z: MpInt) returns (nbits: nat)
    requires z.Valid()
    ensures nbits >= 1 && z.Mag() < Pow2(nbits) && (nbits > 1 ==> Pow2(nbits - 1) <= z.Mag())
  {
    hide Val, Shift, Run, Clamped, Pow2;
    ZeroDigits(z.digits[..], z.used);
    Pow2Mono(0, 1);
    OneIsNoShift();
    if z.used == 1 && z.digits[0] == 0 {
      return 1;
    }
    var uz := z.used - 1;
    nbits := 32 * uz;
    var d := z.digits[uz];
    ghost var n: nat := 0;
    while d != 0
      invariant 0 <= d && nbits == 32 * uz + n
      invariant d * Pow2(n) <= z.digits[uz] < (d + 1) * Pow2(n)
      invariant d == 0 ==> n > 0 && Pow2(n - 1) <= z.digits[uz]
      decreases d
    {
      HalfDigit(d, n, z.digits[uz]);
      d := d / 2;
      nbits := nbits + 1;
      n := n + 1;
    }
    TopBits(z.digits[..], z.used, n);
  }

  lemma {:induction false} ZeroDigits(d: seq<digit>, n: nat)
    requires 1 <= n <= |d| && Clamped(Run(d, 0, n))
    ensures n == 1 && d[0] == 0 ==> Val(Run(d, 0, n)) == 0
    ensures n > 1 ==> d[n - 1] != 0
  {
    ZeroMag(Run(d, 0, n));
  }

  lemma {:induction false} HalfDigit(d: nat, n: nat, x: int)
    requires d > 0 && d * Pow2(n) <= x < (d + 1) * Pow2(n)
    ensures (d / 2) * Pow2(n + 1) <= x < (d / 2 + 1) * Pow2(n + 1)
    ensures d / 2 == 0 ==> Pow2(n) <= x
  {
    var p, h := Pow2(n), d / 2;
    MulAssoc(h, 2, p);
    MulAssoc(h + 1, 2, p);
    MulMono(h * 2, d, p);
    MulMono(d + 1, (h + 1) * 2, p);
    MulMono(1, d, p);
  }

  lemma {:induction false} TopBits(d: seq<digit>, used: nat, n: nat)
    requires 1 <= used <= |d| && n >= 1 && Pow2(n - 1) <= d[used - 1] < Pow2(n)
    ensures var b := 32 * (used - 1) + n; Pow2(b - 1) <= Val(Run(d, 0, used)) < Pow2(b)
  {
    hide Val, Shift;
    var k, s := used - 1, Run(d, 0, used);
    ValStep(s, k);
    assert s[..k + 1] == s && s[k] == d[k];
    ValBound(s[..k]);
    Pow2Digits(k, n);
    Pow2Digits(k, n - 1);
    ShiftMono(Pow2(n - 1), d[k], k);
    ShiftMono(d[k], Pow2(n), k);
  }

  /** mp_int_binary_len: the number of bytes a number needs with its sign. */
  method BinaryLen(z: MpInt) returns (bytes: nat)
    requires z.Valid()
    ensures IsLen(z.Mag(), bytes)
  {
    hide Val, Shift, Run, Clamped, Pow2;
    var res := CountBits(z);
    bytes := (res + 7) / 8;
    if bytes * 8 == res {
      bytes := bytes + 1;
    }
    LenOfBits(z.Mag(), res, bytes);
  }

  lemma {:induction false} LenOfBits(m: nat, n: nat, p: nat)
    requires n >= 1 && m < Pow2(n) && (n > 1 ==> Pow2(n - 1) <= m) && p == n / 8 + 1
    ensures IsLen(m, p)
  {
    hide Pow2;
    assert Pow2(7) == 128 by { Pow2Seven(); }
    ScalePow2(7, p - 1);
    Pow2Mono(n, 8 * p - 1);
    if p > 1 {
      ScalePow2(7, p - 2);
      Pow2Mono(8 * (p - 2) + 7, n - 1);
    }
  }

  lemma {:induction false} Pow2Seven()
    ensures Pow2(7) == 128
  {
  }

  /** Writing a number with room for mp_int_binary_len bytes and reading that many back gives the number. */
  method RoundTrip(z: MpInt, w: MpInt, buf: array<byte>, limit: nat) returns (ok: bool)
    requires z.Valid() && w.Valid() && z != w && z.digits != w.digits && 1 <= limit <= buf.Length
    modifies w, w.digits, buf
    ensures forall len: nat :: IsLen(z.Mag(), len) ==> (ok <==> len <= limit)
    ensures ok ==> w.Valid() && w.Value() == z.Value()
  {
    hide Val, Shift, Run, Clamped, Scale, Big;
    var len := BinaryLen(z);
    ghost var n;
    ok, n := ToBinary(z, buf, limit);
    OnlyLen(z.Mag(), len, limit);
    if ok {
      LenUnique(z.Mag(), len, n);
      ReadBinary(w, buf, len);
    }
  }

  lemma {:induction false} OnlyLen(m: nat, p: nat, limit: nat)
    requires IsLen(m, p) && limit >= 1
    ensures forall len: nat :: IsLen(m, len) ==> len == p
    ensures Fits(m, limit) <==> p <= limit
  {
    forall len: nat | IsLen(m, len) ensures len == p {
      LenUnique(m, len, p);
    }
    if p <= limit {
      FitsMono(m, p, limit);
    } else if Fits(m, limit) {
      FitsMono(m, limit, p - 1);
    }
  }
}

/** Blowfish in CBC mode (section 6.2 of NIST SP 800-38A): buffers in place, and whole runs of calls. */
module Cbc {
  import opened Blowfish

  type bytes = seq<bv8>

  // ---- Blocks -------------------------------------------------------------

  function Words(b: bytes): (bv32, bv32)
    requires |b| == 8
  {
    (Word(b[0], b[1], b[2], b[3]), Word(b[4], b[5], b[6], b[7]))
  }

  function Unwords(x: (bv32, bv32)): (b: bytes)
    ensures |b| == 8
  {
    [Byte(x.0, 3), Byte(x.0, 2), Byte(x.0, 1), Byte(x.0, 0), Byte(x.1, 3), Byte(x.1, 2), Byte(x.1, 1), Byte(x.1, 0)]
  }

  function EncBlock(c: Ctx, b: bytes): (r: bytes)
    requires Keyed(c) && |b| == 8
    ensures |r| == 8
  {
    Unwords(Encipher(c, Words(b)))
  }

  function DecBlock(c: Ctx, b: bytes): (r: bytes)
    requires Keyed(c) && |b| == 8
    ensures |r| == 8
  {
    Unwords(Decipher(c, Words(b)))
  }

  lemma {:induction false} UnwordsBack(x: (bv32, bv32))
    ensures Words(Unwords(x)) == x
  {
    hide Word, Byte;
    BytesWord(x.0);
    BytesWord(x.1);
  }

  lemma {:induction false} WordsBack(b: bytes)
    requires |b| == 8
    ensures Unwords(Words(b)) == b
  {
    hide Word, Byte;
    WordBytes(b[0], b[1], b[2], b[3]);
    WordBytes(b[4], b[5], b[6], b[7]);
  }

  /** Deciphering a block undoes enciphering it. */
  lemma {:induction false} BlockBack(c: Ctx, b: bytes)
    requires Keyed(c) && |b| == 8
    ensures DecBlock(c, EncBlock(c, b)) == b
  {
    hide Words, Unwords, Cipher;
    UnwordsBack(Encipher(c, Words(b)));
    CipherBack(RoundF(c.S), c.P, Words(b));
    WordsBack(b);
  }

  function XorByte(x: bv8, y: bv8): bv8 { x ^ y }

  lemma {:induction false} XorByteTwice(x: bv8, y: bv8)
    ensures XorByte(XorByte(x, y), y) == x
  {
  }

  function XorBlock(a: bytes, b: bytes): (r: bytes)
    requires |a| == |b|
    ensures |r| == |a|
  {
    seq(|a|, i requires 0 <= i < |a| => XorByte(a[i], b[i]))
  }

  lemma {:induction false} XorBlockTwice(a: bytes, b: bytes)
    requires |a| == |b|
    ensures XorBlock(XorBlock(a, b), b) == a
  {
    hide XorByte;
    forall i | 0 <= i < |a| ensures XorByte(XorByte(a[i], b[i]), b[i]) == a[i] {
      XorByteTwice(a[i], b[i]);
    }
  }

  // ---- The mode -----------------------------------------------------------

  /** A multiple of the block length, taken off block by block. */
  predicate Eights(n: nat) {
    n == 0 || (n >= 8 && Eights(n - 8))
  }

  lemma {:induction false} EightsIs(n: nat)
    ensures Eights(n) <==> n % 8 == 0
  {
    if n >= 8 {
      EightsIs(n - 8);
    }
  }

  /** Whole blocks. */
  predicate Blocks(d: bytes) {
    Eights(|d|)
  }

  function CbcEnc(c: Ctx, iv: bytes, d: bytes): (r: bytes)
    requires Keyed(c) && |iv| == 8 && Blocks(d)
    ensures |r| == |d|
    decreases |d|
  {
    if d == [] then []
    else
      var x := EncBlock(c, XorBlock(d[..8], iv));
      x + CbcEnc(c, x, d[8..])
  }

  function CbcDec(c: Ctx, iv: bytes, d: bytes): (r: bytes)
    requires Keyed(c) && |iv| == 8 && Blocks(d)
    ensures |r| == |d|
    decreases |d|
  {
    if d == [] then []
    else XorBlock(DecBlock(c, d[..8]), iv) + CbcDec(c, d[..8], d[8..])
  }

  /** The initialization vector after the ciphertext d. */
  function NextIv(iv: bytes, d: bytes): (r: bytes)
    requires |iv| == 8 && Blocks(d)
    ensures |r| == 8
  {
    if d == [] then iv else d[|d| - 8..]
  }

  /** Decryption undoes encryption. */
  lemma {:induction false} CbcBack(c: Ctx, iv: bytes, d: bytes)
    requires Keyed(c) && |iv| == 8 && Blocks(d)
    ensures CbcDec(c, iv, CbcEnc(c, iv, d)) == d
    decreases |d|
  {
    hide EncBlock, DecBlock, XorBlock;
    if d != [] {
      var m := XorBlock(d[..8], iv);
      var x := EncBlock(c, m);
      var e := CbcEnc(c, iv, d);
      assert e[..8] == x && e[8..] == CbcEnc(c, x, d[8..]);
      BlockBack(c, m);
      XorBlockTwice(d[..8], iv);
      CbcBack(c, x, d[8..]);
      assert d == d[..8] + d[8..];
    }
  }

  lemma {:induction false} BlockBehind(x: bytes, r: bytes, i: nat)
    requires |x| == 8 && 8 * i + 8 <= |x + r|
    ensures (x + r)[8 * i..8 * i + 8] == if i == 0 then x else r[8 * (i - 1)..8 * (i - 1) + 8]
  {
  }

  lemma {:induction false} BlockOfTail(d: bytes, i: nat)
    requires i > 0 && 8 * i + 8 <= |d|
    ensures d[8..][8 * (i - 1)..8 * (i - 1) + 8] == d[8 * i..8 * i + 8]
  {
  }

  /** Every ciphertext block is the plaintext block, xored with the ciphertext block before it or the vector, enciphered. */
  lemma {:induction false} CbcChains(c: Ctx, iv: bytes, d: bytes, i: nat)
    requires Keyed(c) && |iv| == 8 && Blocks(d) && 8 * i + 8 <= |d|
    ensures var e := CbcEnc(c, iv, d);
      e[8 * i..8 * i + 8] == EncBlock(c, XorBlock(d[8 * i..8 * i + 8], if i == 0 then iv else e[8 * i - 8..8 * i]))
    decreases i
  {
    hide EncBlock, XorBlock, CbcEnc;
    EncStep(c, iv, d);
    var x := EncBlock(c, XorBlock(d[..8], iv));
    var r := CbcEnc(c, x, d[8..]);
    BlockBehind(x, r, i);
    if i > 0 {
      CbcChains(c, x, d[8..], i - 1);
      BlockOfTail(d, i);
      BlockBehind(x, r, i - 1);
    }
  }

  /** The first block of a concatenation. */
  lemma {:induction false} FirstBlock(d: bytes, e: bytes)
    requires |d| >= 8
    ensures (d + e)[..8] == d[..8] && (d + e)[8..] == d[8..] + e
  {
  }

  lemma {:induction false} NextIvBehind(iv: bytes, x: bytes, r: bytes)
    requires |iv| == 8 && |x| == 8 && Blocks(r)
    ensures Blocks(x + r) && NextIv(iv, x + r) == NextIv(x, r)
  {
  }

  lemma {:induction false} EncStep(c: Ctx, iv: bytes, d: bytes)
    requires Keyed(c) && |iv| == 8 && Blocks(d) && d != []
    ensures |d| >= 8 && CbcEnc(c, iv, d) == var x := EncBlock(c, XorBlock(d[..8], iv)); x + CbcEnc(c, x, d[8..])
  {
    hide EncBlock, XorBlock;
  }

  lemma {:induction false} DecStep(c: Ctx, iv: bytes, d: bytes)
    requires Keyed(c) && |iv| == 8 && Blocks(d) && d != []
    ensures |d| >= 8 && CbcDec(c, iv, d) == XorBlock(DecBlock(c, d[..8]), iv) + CbcDec(c, d[..8], d[8..])
  {
    hide DecBlock, XorBlock;
  }

  /** Encrypting in two pieces, the second with the vector the first left. */
  lemma {:induction false} EncSplit(c: Ctx, iv: bytes, d: bytes, e: bytes)
    requires Keyed(c) && |iv| == 8 && Blocks(d) && Blocks(e) && Blocks(d + e)
    ensures CbcEnc(c, iv, d + e) == CbcEnc(c, iv, d) + CbcEnc(c, NextIv(iv, CbcEnc(c, iv, d)), e)
    decreases |d|
  {
    hide EncBlock, XorBlock, CbcEnc;
    if d == [] {
      assert d + e == e;
      EncNothing(c, iv);
      assert [] + CbcEnc(c, iv, e) == CbcEnc(c, iv, e);
    } else {
      EncStep(c, iv, d);
      EncStep(c, iv, d + e);
      FirstBlock(d, e);
      var x := EncBlock(c, XorBlock(d[..8], iv));
      var r := CbcEnc(c, x, d[8..]);
      EncSplit(c, x, d[8..], e);
      NextIvBehind(iv, x, r);
      var s := CbcEnc(c, NextIv(x, r), e);
      assert x + (r + s) == (x + r) + s;
    }
  }

  lemma {:induction false} DecSplit(c: Ctx, iv: bytes, d: bytes, e: bytes)
    requires Keyed(c) && |iv| == 8 && Blocks(d) && Blocks(e) && Blocks(d + e)
    ensures CbcDec(c, iv, d + e) == CbcDec(c, iv, d) + CbcDec(c, NextIv(iv, d), e)
    decreases |d|
  {
    hide DecBlock, XorBlock, CbcDec;
    if d == [] {
      assert d + e == e;
      EncNothing(c, iv);
      assert [] + CbcDec(c, iv, e) == CbcDec(c, iv, e);
    } else {
      DecStep(c, iv, d);
      DecStep(c, iv, d + e);
      FirstBlock(d, e);
      DecSplit(c, d[..8], d[8..], e);
      NextIvBehind(iv, d[..8], d[8..]);
      assert d == d[..8] + d[8..];
      var x, r, s := XorBlock(DecBlock(c, d[..8]), iv), CbcDec(c, d[..8], d[8..]), CbcDec(c, NextIv(d[..8], d[8..]), e);
      assert x + (r + s) == (x + r) + s;
    }
  }

  // ---- Runs of calls ------------------------------------------------------

  /** What the calls take in: chunks that are not whole blocks are refused. */
  function Accepted(chunks: seq<bytes>): (d: bytes)
    ensures Blocks(d)
  {
    if chunks == [] then []
    else
      var first, rest := if Blocks(chunks[0]) then chunks[0] else [], Accepted(chunks[1..]);
      BlocksConcat(first, rest);
      first + rest
  }

  lemma {:induction false} BlocksConcat(d: bytes, e: bytes)
    requires Blocks(d) && Blocks(e)
    ensures Blocks(d + e)
  {
    EightsSum(|d|, |e|);
  }

  lemma {:induction false} EightsSum(m: nat, n: nat)
    requires Eights(m) && Eights(n)
    ensures Eights(m + n)
  {
    if m > 0 {
      EightsSum(m - 8, n);
    }
  }

  /** The output of a run of bf_encrypt calls, the vector passing from each to the next. */
  function EncRun(c: Ctx, iv: bytes, chunks: seq<bytes>): bytes
    requires Keyed(c) && |iv| == 8
    decreases |chunks|
  {
    if chunks == [] then []
    else if !Blocks(chunks[0]) then EncRun(c, iv, chunks[1..])
    else
      var out := CbcEnc(c, iv, chunks[0]);
      out + EncRun(c, NextIv(iv, out), chunks[1..])
  }

  function DecRun(c: Ctx, iv: bytes, chunks: seq<bytes>): bytes
    requires Keyed(c) && |iv| == 8
    decreases |chunks|
  {
    if chunks == [] then []
    else if !Blocks(chunks[0]) then DecRun(c, iv, chunks[1..])
    else CbcDec(c, iv, chunks[0]) + DecRun(c, NextIv(iv, chunks[0]), chunks[1..])
  }

  /** However the plaintext is cut, the run gives one encryption of the whole. */
  lemma {:induction false} EncRunIsWhole(c: Ctx, iv: bytes, chunks: seq<bytes>)
    requires Keyed(c) && |iv| == 8
    ensures EncRun(c, iv, chunks) == CbcEnc(c, iv, Accepted(chunks))
    decreases |chunks|
  {
    hide CbcEnc;
    if chunks == [] {
      EncNothing(c, iv);
    } else if Blocks(chunks[0]) {
      EncRunIsWhole(c, NextIv(iv, CbcEnc(c, iv, chunks[0])), chunks[1..]);
      BlocksConcat(chunks[0], Accepted(chunks[1..]));
      EncSplit(c, iv, chunks[0], Accepted(chunks[1..]));
    } else {
      EncRunIsWhole(c, iv, chunks[1..]);
      assert Accepted(chunks) == Accepted(chunks[1..]);
    }
  }

  lemma {:induction false} EncNothing(c: Ctx, iv: bytes)
    requires Keyed(c) && |iv| == 8
    ensures CbcEnc(c, iv, []) == [] && CbcDec(c, iv, []) == []
  {
  }

  lemma {:induction false} DecRunIsWhole(c: Ctx, iv: bytes, chunks: seq<bytes>)
    requires Keyed(c) && |iv| == 8
    ensures DecRun(c, iv, chunks) == CbcDec(c, iv, Accepted(chunks))
    decreases |chunks|
  {
    hide CbcDec;
    if chunks == [] {
      EncNothing(c, iv);
    } else if Blocks(chunks[0]) {
      DecRunIsWhole(c, NextIv(iv, chunks[0]), chunks[1..]);
      BlocksConcat(chunks[0], Accepted(chunks[1..]));
      DecSplit(c, iv, chunks[0], Accepted(chunks[1..]));
    } else {
      DecRunIsWhole(c, iv, chunks[1..]);
      assert Accepted(chunks) == Accepted(chunks[1..]);
    }
  }

  /** Decrypting the ciphertext of a run, cut in any other way, gives the plaintext back. */
  lemma {:induction false} RunBack(c: Ctx, iv: bytes, chunks: seq<bytes>, recut: seq<bytes>)
    requires Keyed(c) && |iv| == 8 && Accepted(recut) == EncRun(c, iv, chunks)
    ensures DecRun(c, iv, recut) == Accepted(chunks)
  {
    hide CbcEnc, CbcDec, EncRun, DecRun, Accepted;
    EncRunIsWhole(c, iv, chunks);
    DecRunIsWhole(c, iv, recut);
    CbcBack(c, iv, Accepted(chunks));
  }

  // ---- The buffers --------------------------------------------------------

  /** XORs eight bytes of v onto eight bytes of data. */
  method XorAt(data: array<bv8>, o: nat, v: array<bv8>, p: nat)
    requires o + 8 <= data.Length && p + 8 <= v.Length && (v != data || p + 8 <= o)
    modifies data
    ensures data[..] == old(data[..])[..o] + XorBlock(old(data[o..o + 8]), old(v[p..p + 8])) + old(data[..])[o + 8..]
  {
    hide XorByte;
    ghost var D, A, B := data[..], data[o..o + 8], v[p..p + 8];
    var j := 0;
    while j < 8
      invariant 0 <= j <= 8
      invariant data[..o] == D[..o] && data[o + j..] == D[o + j..] && v[p..p + 8] == B
      invariant data[o..o + j] == XorBlock(A, B)[..j]
    {
      assert v[p + j] == B[j] && data[o + j] == data[o + j..][0] == D[o + j] == A[j];
      ghost var was := data[o..o + j];
      data[o + j] := XorByte(data[o + j], v[p + j]);
      assert data[o..o + j + 1] == was + [XorByte(A[j], B[j])];
      j := j + 1;
    }
    assert data[..] == data[..o] + data[o..o + 8] + data[o + 8..];
  }

  /** The words of eight bytes of data. */
  method Load(data: array<bv8>, o: nat) returns (d: array<bv32>)
    requires o + 8 <= data.Length
    ensures fresh(d) && d.Length == 2 && (d[0], d[1]) == Words(data[o..o + 8])
  {
    hide Word;
    d := new bv32[2];
    d[0] := Word(data[o], data[o + 1], data[o + 2], data[o + 3]);
    d[1] := Word(data[o + 4], data[o + 5], data[o + 6], data[o + 7]);
  }

  /** Two words back into eight bytes. */
  method Store(data: array<bv8>, o: nat, l: bv32, r: bv32)
    requires o + 8 <= data.Length
    modifies data
    ensures data[..] == old(data[..])[..o] + Unwords((l, r)) + old(data[..])[o + 8..]
  {
    hide Byte;
    data[o] := Byte(l, 3);
    data[o + 1] := Byte(l, 2);
    data[o + 2] := Byte(l, 1);
    data[o + 3] := Byte(l, 0);
    data[o + 4] := Byte(r, 3);
    data[o + 5] := Byte(r, 2);
    data[o + 6] := Byte(r, 1);
    data[o + 7] := Byte(r, 0);
  }

  method EncryptAt(c: Ctx, data: array<bv8>, o: nat)
    requires Keyed(c) && o + 8 <= data.Length
    modifies data
    ensures data[..] == old(data[..])[..o] + EncBlock(c, old(data[o..o + 8])) + old(data[..])[o + 8..]
  {
    hide Words, Unwords, Encipher;
    var d := Load(data, o);
    EncipherWords(c, d);
    Store(data, o, d[0], d[1]);
  }

  method DecryptAt(c: Ctx, data: array<bv8>, o: nat)
    requires Keyed(c) && o + 8 <= data.Length
    modifies data
    ensures data[..] == old(data[..])[..o] + DecBlock(c, old(data[o..o + 8])) + old(data[..])[o + 8..]
  {
    hide Words, Unwords, Decipher;
    var d := Load(data, o);
    DecipherWords(c, d);
    Store(data, o, d[0], d[1]);
  }

  /** now is was with the eight bytes at o replaced by x. */
  ghost predicate Spliced(was: bytes, now: bytes, o: nat, x: bytes) {
    o + 8 <= |was| && |x| == 8 && now == was[..o] + x + was[o + 8..]
  }

  lemma {:induction false} SplicedParts(was: bytes, now: bytes, o: nat, x: bytes)
    requires Spliced(was, now, o, x)
    ensures |now| == |was| && now[..o] == was[..o] && now[o..o + 8] == x && now[o + 8..] == was[o + 8..]
    ensures now[..o + 8] == was[..o] + x && now[o..] == x + was[o + 8..]
  {
  }

  /** One block of CBC encryption with the vector at v[p..p + 8]. */
  method EncryptBlock(c: Ctx, data: array<bv8>, o: nat, v: array<bv8>, p: nat)
    requires Keyed(c) && o + 8 <= data.Length && p + 8 <= v.Length && (v != data || p + 8 <= o)
    modifies data
    ensures Spliced(old(data[..]), data[..], o, EncBlock(c, XorBlock(old(data[o..o + 8]), old(v[p..p + 8]))))
  {
    hide EncBlock, XorBlock;
    ghost var was, x := data[..], XorBlock(data[o..o + 8], v[p..p + 8]);
    XorAt(data, o, v, p);
    SplicedParts(was, data[..], o, x);
    EncryptAt(c, data, o);
  }

  /** One block of CBC decryption. */
  method DecryptBlock(c: Ctx, data: array<bv8>, o: nat, v: array<bv8>, p: nat)
    requires Keyed(c) && o + 8 <= data.Length && p + 8 <= v.Length && (v != data || p + 8 <= o)
    modifies data
    ensures Spliced(old(data[..]), data[..], o, XorBlock(DecBlock(c, old(data[o..o + 8])), old(v[p..p + 8])))
  {
    hide DecBlock, XorBlock;
    ghost var was, x, iv := data[..], DecBlock(c, data[o..o + 8]), v[p..p + 8];
    DecryptAt(c, data, o);
    SplicedParts(was, data[..], o, x);
    if v == data {
      assert was[p..p + 8] == was[..o][p..p + 8] && data[p..p + 8] == data[..o][p..p + 8];
    }
    assert v[p..p + 8] == iv;
    XorAt(data, o, v, p);
  }

  lemma {:induction false} EncCons(c: Ctx, iv: bytes, d: bytes, i: nat)
    requires Keyed(c) && |iv| == 8 && i + 8 <= |d| && Eights(|d| - i)
    ensures CbcEnc(c, iv, d[i..]) == var x := EncBlock(c, XorBlock(d[i..i + 8], iv)); x + CbcEnc(c, x, d[i + 8..])
  {
    hide EncBlock, XorBlock;
    assert d[i..][..8] == d[i..i + 8] && d[i..][8..] == d[i + 8..];
  }

  lemma {:induction false} DecCons(c: Ctx, iv: bytes, d: bytes, i: nat)
    requires Keyed(c) && |iv| == 8 && i + 8 <= |d| && Eights(|d| - i)
    ensures CbcDec(c, iv, d[i..]) == XorBlock(DecBlock(c, d[i..i + 8]), iv) + CbcDec(c, d[i..i + 8], d[i + 8..])
  {
    hide DecBlock, XorBlock;
    assert d[i..][..8] == d[i..i + 8] && d[i..][8..] == d[i + 8..];
  }

  /** The blocks before i are encrypted, the last of them, cur, is the next vector; the bytes from i on are untouched. */
  ghost predicate EncSoFar(c: Ctx, W: bytes, len: nat, E: bytes, now: bytes, i: nat, cur: bytes) {
    && Keyed(c) && i <= len <= |W| == |now| && Eights(len - i) && |cur| == 8
    && now[i..] == W[i..] && now[..i] + CbcEnc(c, cur, W[..len][i..]) == E
  }

  lemma {:induction false} EncBegins(c: Ctx, W: bytes, len: nat, iv: bytes)
    requires Keyed(c) && len <= |W| && Eights(len) && |iv| == 8
    ensures EncSoFar(c, W, len, CbcEnc(c, iv, W[..len]), W, 0, iv)
  {
    hide CbcEnc;
    assert W[..len][0..] == W[..len] && W[..0] == [];
  }

  lemma {:induction false} EncFinds(c: Ctx, W: bytes, len: nat, E: bytes, now: bytes, i: nat, cur: bytes)
    requires EncSoFar(c, W, len, E, now, i, cur) && i < len
    ensures i + 8 <= len && now[i..i + 8] == W[..len][i..i + 8]
  {
    hide CbcEnc;
    assert now[i..i + 8] == now[i..][..8] && W[..len][i..i + 8] == W[i..][..8];
  }

  lemma {:induction false} EncAdvances(c: Ctx, W: bytes, len: nat, E: bytes, was: bytes, now: bytes, i: nat, cur: bytes)
    requires EncSoFar(c, W, len, E, was, i, cur) && i < len && i + 8 <= len
    requires Spliced(was, now, i, EncBlock(c, XorBlock(W[..len][i..i + 8], cur)))
    ensures var x := EncBlock(c, XorBlock(W[..len][i..i + 8], cur));
      EncSoFar(c, W, len, E, now, i + 8, x) && now[i..i + 8] == x
  {
    hide EncBlock, XorBlock, CbcEnc, Spliced;
    var D := W[..len];
    var x := EncBlock(c, XorBlock(D[i..i + 8], cur));
    SplicedParts(was, now, i, x);
    EncCons(c, cur, D, i);
    assert was[i + 8..] == was[i..][8..] && W[i + 8..] == W[i..][8..];
    var r := CbcEnc(c, x, D[i + 8..]);
    assert was[..i] + (x + r) == (was[..i] + x) + r;
  }

  lemma {:induction false} EncEnds(c: Ctx, W: bytes, len: nat, E: bytes, now: bytes, i: nat, cur: bytes)
    requires EncSoFar(c, W, len, E, now, i, cur) && i >= len
    ensures now == E + W[len..]
  {
    EncNothing(c, cur);
    assert W[..len][i..] == [] && now == now[..len] + now[len..];
  }

  /** blf_cbc_encrypt: forward over the first len bytes, each ciphertext block the next vector. */
  method CbcEncrypt(c: Ctx, iv: array<bv8>, data: array<bv8>, len: nat)
    requires Keyed(c) && iv.Length == 8 && iv != data && len <= data.Length && Eights(len)
    modifies data
    ensures data[..] == CbcEnc(c, iv[..], old(data[..])[..len]) + old(data[..])[len..]
  {
    hide EncBlock, XorBlock, CbcEnc, Spliced, EncSoFar;
    ghost var W := data[..];
    ghost var cur, E := iv[..], CbcEnc(c, iv[..], W[..len]);
    EncBegins(c, W, len, iv[..]);
    var va, vo := iv, 0;
    var i := 0;
    while i < len
      invariant 0 <= i && ((va == iv && vo == 0) || (va == data && vo + 8 == i <= data.Length))
      invariant va[vo..vo + 8] == cur && EncSoFar(c, W, len, E, data[..], i, cur)
    {
      ghost var was := data[..];
      EncFinds(c, W, len, E, was, i, cur);
      EncryptBlock(c, data, i, va, vo);
      EncAdvances(c, W, len, E, was, data[..], i, cur);
      cur := EncBlock(c, XorBlock(W[..len][i..i + 8], cur));
      va, vo := data, i;
      i := i + 8;
    }
    EncEnds(c, W, len, E, data[..], i, cur);
  }

  /** Block i of D is next; the blocks after it are decrypted, the bytes T behind the data untouched. */
  ghost predicate DecSoFar(c: Ctx, D: bytes, T: bytes, now: bytes, i: nat) {
    && Keyed(c) && Blocks(D) && i + 8 <= |D| && Eights(i) && Eights(|D| - i) && |now| == |D| + |T|
    && now[..i + 8] == D[..i + 8] && now[i + 8..] == CbcDec(c, D[i..i + 8], D[i + 8..]) + T
  }

  lemma {:induction false} DecBegins(c: Ctx, D: bytes, T: bytes, now: bytes)
    requires Keyed(c) && Blocks(D) && |D| >= 8 && now == D + T
    ensures DecSoFar(c, D, T, now, |D| - 8)
  {
    var i := |D| - 8;
    EncNothing(c, D[i..i + 8]);
    assert D[|D|..] == [];
  }

  lemma {:induction false} DecFinds(c: Ctx, D: bytes, T: bytes, now: bytes, i: nat)
    requires DecSoFar(c, D, T, now, i)
    ensures now[i..i + 8] == D[i..i + 8]
    ensures i >= 8 ==> now[i - 8..i] == D[i - 8..i]
  {
    hide CbcDec;
    assert now[i..i + 8] == now[..i + 8][i..];
    if i >= 8 {
      assert now[i - 8..i] == now[..i + 8][i - 8..i];
      assert D[i - 8..i] == D[..i + 8][i - 8..i];
    }
  }

  /** Decrypting block i with the vector iv. */
  lemma {:induction false} DecAdvances(c: Ctx, D: bytes, T: bytes, was: bytes, now: bytes, i: nat, iv: bytes)
    requires DecSoFar(c, D, T, was, i) && |iv| == 8
    requires Spliced(was, now, i, XorBlock(DecBlock(c, D[i..i + 8]), iv))
    ensures |now| == |was| && now[..i] == D[..i] && now[i..] == CbcDec(c, iv, D[i..]) + T
    ensures i >= 8 && iv == D[i - 8..i] ==> DecSoFar(c, D, T, now, i - 8)
  {
    hide DecBlock, XorBlock, CbcDec, Spliced;
    SplicedParts(was, now, i, XorBlock(DecBlock(c, D[i..i + 8]), iv));
    DecCons(c, iv, D, i);
    assert now[..i] == was[..i + 8][..i] == D[..i];
  }

  /** blf_cbc_decrypt: backward over the first len bytes, so that every block still finds its predecessor. */
  method CbcDecrypt(c: Ctx, iva: array<bv8>, data: array<bv8>, len: nat)
    requires Keyed(c) && iva.Length == 8 && iva != data && 8 <= len <= data.Length && Eights(len)
    modifies data
    ensures data[..] == CbcDec(c, iva[..], old(data[..])[..len]) + old(data[..])[len..]
  {
    hide DecBlock, XorBlock, CbcDec, Spliced, DecSoFar, Eights;
    ghost var D, T := data[..len], data[len..];
    DecBegins(c, D, T, data[..]);
    var i := len - 8;
    while i >= 8
      invariant 0 <= i <= len - 8 && DecSoFar(c, D, T, data[..], i)
    {
      ghost var was := data[..];
      DecFinds(c, D, T, was, i);
      DecryptBlock(c, data, i, data, i - 8);
      DecAdvances(c, D, T, was, data[..], i, D[i - 8..i]);
      i := i - 8;
    }
    ghost var was := data[..];
    DecFinds(c, D, T, was, i);
    ghost var iv := iva[..];
    assert iva[0..8] == iv;
    DecEnds(c, D, T, was, i);
    DecryptBlock(c, data, 0, iva, 0);
    DecAdvances(c, D, T, was, data[..], 0, iv);
    assert D[0..] == D && data[..] == data[0..];
  }

  lemma {:induction false} DecEnds(c: Ctx, D: bytes, T: bytes, now: bytes, i: nat)
    requires DecSoFar(c, D, T, now, i) && i < 8
    ensures i == 0
  {
  }
}

/** The cipher object: ECB and CBC calls, and runs of calls that pass the vector on. */
module BfCiphers {
  import opened Blowfish
  import opened Cbc

  // ---- ECB ----------------------------------------------------------------

  /** One block, enciphered or deciphered. */
  function Block(c: Ctx, enc: bool, b: bytes): (r: bytes)
    requires Keyed(c) && |b| == 8
    ensures |r| == 8
  {
    if enc then EncBlock(c, b) else DecBlock(c, b)
  }

  /** Every block by itself. */
  function Ecb(c: Ctx, enc: bool, d: bytes): (r: bytes)
    requires Keyed(c) && Blocks(d)
    ensures |r| == |d|
    decreases |d|
  {
    if d == [] then [] else Block(c, enc, d[..8]) + Ecb(c, enc, d[8..])
  }

  lemma {:induction false} EcbBack(c: Ctx, d: bytes)
    requires Keyed(c) && Blocks(d)
    ensures Ecb(c, false, Ecb(c, true, d)) == d
    decreases |d|
  {
    hide EncBlock, DecBlock;
    if d != [] {
      var x, r := EncBlock(c, d[..8]), Ecb(c, true, d[8..]);
      var e := Ecb(c, true, d);
      assert e == x + r && e[..8] == x && e[8..] == r;
      BlockBack(c, d[..8]);
      EcbBack(c, d[8..]);
      assert d == d[..8] + d[8..];
    }
  }

  /** Every block comes out as its own. */
  lemma {:induction false} EcbBlock(c: Ctx, enc: bool, d: bytes, i: nat)
    requires Keyed(c) && Blocks(d) && 8 * i + 8 <= |d|
    ensures Ecb(c, enc, d)[8 * i..8 * i + 8] == Block(c, enc, d[8 * i..8 * i + 8])
    decreases i
  {
    hide Block;
    BlockBehind(Block(c, enc, d[..8]), Ecb(c, enc, d[8..]), i);
    if i > 0 {
      EcbBlock(c, enc, d[8..], i - 1);
      BlockOfTail(d, i);
    }
  }

  /** The blocks before i are done, the bytes from i on untouched. */
  ghost predicate EcbSoFar(c: Ctx, enc: bool, W: bytes, len: nat, now: bytes, i: nat) {
    && Keyed(c) && i <= len <= |W| == |now| && Eights(len) && Eights(len - i)
    && now[i..] == W[i..] && now[..i] + Ecb(c, enc, W[..len][i..]) == Ecb(c, enc, W[..len])
  }

  lemma {:induction false} EcbBegins(c: Ctx, enc: bool, W: bytes, len: nat)
    requires Keyed(c) && len <= |W| && Eights(len)
    ensures EcbSoFar(c, enc, W, len, W, 0)
  {
    hide Ecb;
    assert W[..len][0..] == W[..len] && W[..0] == [];
  }

  lemma {:induction false} EcbAdvances(c: Ctx, enc: bool, W: bytes, len: nat, was: bytes, now: bytes, i: nat)
    requires EcbSoFar(c, enc, W, len, was, i) && i < len
    ensures i + 8 <= len && was[i..i + 8] == W[..len][i..i + 8]
    ensures Spliced(was, now, i, Block(c, enc, W[..len][i..i + 8])) ==> EcbSoFar(c, enc, W, len, now, i + 8)
  {
    hide Block, Spliced;
    var D := W[..len];
    assert was[i..i + 8] == was[i..][..8] && D[i..i + 8] == W[i..][..8];
    var x := Block(c, enc, D[i..i + 8]);
    if Spliced(was, now, i, x) {
      SplicedParts(was, now, i, x);
      assert D[i..][..8] == D[i..i + 8] && D[i..][8..] == D[i + 8..];
      assert was[i + 8..] == was[i..][8..] && W[i + 8..] == W[i..][8..];
      var r := Ecb(c, enc, D[i + 8..]);
      assert was[..i] + (x + r) == (was[..i] + x) + r;
    }
  }

  lemma {:induction false} EcbEnds(c: Ctx, enc: bool, W: bytes, len: nat, now: bytes, i: nat)
    requires EcbSoFar(c, enc, W, len, now, i) && i >= len
    ensures now == Ecb(c, enc, W[..len]) + W[len..]
  {
    assert W[..len][i..] == [] && now == now[..len] + now[len..];
  }

  /** blf_ecb_encrypt. */
  method EcbEncrypt(c: Ctx, data: array<bv8>, len: nat)
    requires Keyed(c) && len <= data.Length && Eights(len)
    modifies data
    ensures data[..] == Ecb(c, true, old(data[..])[..len]) + old(data[..])[len..]
  {
    hide EncBlock, Ecb, EcbSoFar;
    ghost var W := data[..];
    EcbBegins(c, true, W, len);
    var i := 0;
    while i < len
      invariant 0 <= i && EcbSoFar(c, true, W, len, data[..], i)
    {
      ghost var was := data[..];
      EcbAdvances(c, true, W, len, was, was, i);
      EncryptAt(c, data, i);
      EcbAdvances(c, true, W, len, was, data[..], i);
      i := i + 8;
    }
    EcbEnds(c, true, W, len, data[..], i);
  }

  /** blf_ecb_decrypt. */
  method EcbDecrypt(c: Ctx, data: array<bv8>, len: nat)
    requires Keyed(c) && len <= data.Length && Eights(len)
    modifies data
    ensures data[..] == Ecb(c, false, old(data[..])[..len]) + old(data[..])[len..]
  {
    hide DecBlock, Ecb, EcbSoFar;
    ghost var W := data[..];
    EcbBegins(c, false, W, len);
    var i := 0;
    while i < len
      invariant 0 <= i && EcbSoFar(c, false, W, len, data[..], i)
    {
      ghost var was := data[..];
      EcbAdvances(c, false, W, len, was, was, i);
      DecryptAt(c, data, i);
      EcbAdvances(c, false, W, len, was, data[..], i);
      i := i + 8;
    }
    EcbEnds(c, false, W, len, data[..], i);
  }

  // ---- The cipher object --------------------------------------------------

  datatype Status = Ok | NotBlockSize

  datatype Mode = ECB | CBC

  /** What a call puts out. */
  function Encrypted(c: Ctx, mode: Mode, iv: bytes, d: bytes): bytes
    requires Keyed(c) && |iv| == 8 && Blocks(d)
  {
    if mode == CBC then CbcEnc(c, iv, d) else Ecb(c, true, d)
  }

  function Decrypted(c: Ctx, mode: Mode, iv: bytes, d: bytes): bytes
    requires Keyed(c) && |iv| == 8 && Blocks(d)
  {
    if mode == CBC then CbcDec(c, iv, d) else Ecb(c, false, d)
  }

  /** struct int_ctx, keyed. */
  class BfCipher {
    const ctx: Ctx
    const mode: Mode
    const iv: array<bv8>

    ghost predicate Valid() {
      Keyed(ctx) && iv.Length == 8
    }

    /** bf_init with a vector; the subkeys and S-boxes are given. */
    constructor (c: Ctx, m: Mode, v: array<bv8>)
      requires Keyed(c) && v.Length >= 8
      ensures Valid() && ctx == c && mode == m && fresh(iv) && iv[..] == v[..8]
    {
      ctx, mode := c, m;
      iv := new bv8[8](i requires 0 <= i < 8 reads v => v[i]);
    }

    /** bf_encrypt. */
    method Encrypt(data: array<bv8>, dlen: nat, res: array<bv8>) returns (s: Status)
      requires Valid() && dlen <= data.Length && dlen <= res.Length && data != iv && res != iv
      modifies iv, res
      ensures s == Ok <==> dlen % 8 == 0
      ensures Eights(dlen) <==> dlen % 8 == 0
      ensures s == Ok ==>
        && res[..dlen] == Encrypted(ctx, mode, old(iv[..]), old(data[..dlen])) && res[dlen..] == old(res[dlen..])
        && iv[..] == if mode == CBC then NextIv(old(iv[..]), res[..dlen]) else old(iv[..])
      ensures s != Ok ==> res[..] == old(res[..]) && iv[..] == old(iv[..])
    {
      hide CbcEnc, Ecb;
      EightsIs(dlen);
      if dlen == 0 {
        Nothing(ctx, mode, iv[..]);
        assert data[..0] == [] && res[..0] == [];
        return Ok;
      }
      if dlen % 8 != 0 {
        return NotBlockSize;
      }
      CopyBytes(data, 0, res, dlen);
      match mode {
      case ECB =>
        EcbEncrypt(ctx, res, dlen);
      case CBC =>
        CbcEncrypt(ctx, iv, res, dlen);
        CopyBytes(res, dlen - 8, iv, 8);
        assert iv[..] == iv[..8];
      }
      return Ok;
    }

    /** bf_decrypt; the next vector is read from the input buffer, which must therefore be another one. */
    method Decrypt(data: array<bv8>, dlen: nat, res: array<bv8>) returns (s: Status)
      requires Valid() && dlen <= data.Length && dlen <= res.Length && data != iv && res != iv
      modifies iv, res
      ensures s == Ok <==> dlen % 8 == 0
      ensures Eights(dlen) <==> dlen % 8 == 0
      ensures s == Ok ==>
        && res[..dlen] == Decrypted(ctx, mode, old(iv[..]), old(data[..dlen])) && res[dlen..] == old(res[dlen..])
        && iv[..] == if mode == CBC then NextIv(old(iv[..]), if data == res then res[..dlen] else old(data[..dlen])) else old(iv[..])
      ensures s != Ok ==> res[..] == old(res[..]) && iv[..] == old(iv[..])
    {
      hide CbcDec, Ecb;
      EightsIs(dlen);
      if dlen == 0 {
        Nothing(ctx, mode, iv[..]);
        assert data[..0] == [] && res[..0] == [];
        return Ok;
      }
      if dlen % 8 != 0 {
        return NotBlockSize;
      }
      CopyBytes(data, 0, res, dlen);
      match mode {
      case ECB =>
        EcbDecrypt(ctx, res, dlen);
      case CBC =>
        CbcDecrypt(ctx, iv, res, dlen);
        CopyBytes(data, dlen - 8, iv, 8);
        assert iv[..] == iv[..8];
      }
      return Ok;
    }
  }

  lemma {:induction false} Nothing(c: Ctx, mode: Mode, iv: bytes)
    requires Keyed(c) && |iv| == 8
    ensures Encrypted(c, mode, iv, []) == [] && Decrypted(c, mode, iv, []) == []
  {
    EncNothing(c, iv);
  }

  /** memcpy. */
  method CopyBytes(from: array<bv8>, o: nat, to: array<bv8>, n: nat)
    requires o + n <= from.Length && n <= to.Length && (from == to ==> o == 0)
    modifies to
    ensures to[..n] == old(from[o..o + n]) && to[n..] == old(to[n..])
  {
    forall i | 0 <= i < n {
      to[i] := from[o + i];
    }
  }

  // ---- Runs of calls ------------------------------------------------------

  lemma {:induction false} EncRunStep(c: Ctx, iv: bytes, chunks: seq<bytes>, i: nat)
    requires Keyed(c) && |iv| == 8 && i < |chunks|
    ensures EncRun(c, iv, chunks[i..]) ==
      if Blocks(chunks[i]) then var out := CbcEnc(c, iv, chunks[i]); out + EncRun(c, NextIv(iv, out), chunks[i + 1..])
      else EncRun(c, iv, chunks[i + 1..])
  {
    hide CbcEnc;
    assert chunks[i..][1..] == chunks[i + 1..];
  }

  lemma {:induction false} DecRunStep(c: Ctx, iv: bytes, chunks: seq<bytes>, i: nat)
    requires Keyed(c) && |iv| == 8 && i < |chunks|
    ensures DecRun(c, iv, chunks[i..]) ==
      if Blocks(chunks[i]) then CbcDec(c, iv, chunks[i]) + DecRun(c, NextIv(iv, chunks[i]), chunks[i + 1..])
      else DecRun(c, iv, chunks[i + 1..])
  {
    hide CbcDec;
    assert chunks[i..][1..] == chunks[i + 1..];
  }

  lemma {:induction false} RunEnds(c: Ctx, iv: bytes, chunks: seq<bytes>)
    requires Keyed(c) && |iv| == 8
    ensures EncRun(c, iv, chunks[|chunks|..]) == [] && DecRun(c, iv, chunks[|chunks|..]) == []
  {
  }

  /** bf_encrypt on one chunk after the other, each in a buffer of its own. */
  method EncryptAll(cipher: BfCipher, chunks: seq<bytes>) returns (out: bytes)
    requires cipher.Valid() && cipher.mode == CBC
    modifies cipher.iv
    ensures out == EncRun(cipher.ctx, old(cipher.iv[..]), chunks)
  {
    hide CbcEnc, EncRun, NextIv;
    out := [];
    ghost var all := EncRun(cipher.ctx, cipher.iv[..], chunks);
    assert chunks[0..] == chunks && [] + all == all;
    for i := 0 to |chunks|
      invariant out + EncRun(cipher.ctx, cipher.iv[..], chunks[i..]) == all
    {
      var n := |chunks[i]|;
      var data := new bv8[n](k requires 0 <= k < n => chunks[i][k]);
      var res := new bv8[n](_ => 0);
      assert data[..n] == chunks[i];
      EncRunStep(cipher.ctx, cipher.iv[..], chunks, i);
      var s := cipher.Encrypt(data, n, res);
      if s == Ok {
        ghost var rest := EncRun(cipher.ctx, cipher.iv[..], chunks[i + 1..]);
        assert out + (res[..n] + rest) == (out + res[..n]) + rest;
        out := out + res[..n];
      }
    }
    RunEnds(cipher.ctx, cipher.iv[..], chunks);
    assert out + [] == out;
  }

  /** bf_decrypt on one chunk after the other, each in a buffer of its own. */
  method DecryptAll(cipher: BfCipher, chunks: seq<bytes>) returns (out: bytes)
    requires cipher.Valid() && cipher.mode == CBC
    modifies cipher.iv
    ensures out == DecRun(cipher.ctx, old(cipher.iv[..]), chunks)
  {
    hide CbcDec, DecRun, NextIv;
    out := [];
    ghost var all := DecRun(cipher.ctx, cipher.iv[..], chunks);
    assert chunks[0..] == chunks && [] + all == all;
    for i := 0 to |chunks|
      invariant out + DecRun(cipher.ctx, cipher.iv[..], chunks[i..]) == all
    {
      var n := |chunks[i]|;
      var data := new bv8[n](k requires 0 <= k < n => chunks[i][k]);
      var res := new bv8[n](_ => 0);
      assert data[..n] == chunks[i];
      DecRunStep(cipher.ctx, cipher.iv[..], chunks, i);
      var s := cipher.Decrypt(data, n, res);
      if s == Ok {
        ghost var rest := DecRun(cipher.ctx, cipher.iv[..], chunks[i + 1..]);
        assert out + (res[..n] + rest) == (out + res[..n]) + rest;
        out := out + res[..n];
      }
    }
    RunEnds(cipher.ctx, cipher.iv[..], chunks);
    assert out + [] == out;
  }
}

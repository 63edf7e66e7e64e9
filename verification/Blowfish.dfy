/** The Blowfish block cipher: deciphering undoes enciphering whatever the subkeys and S-boxes hold. */
module Blowfish {

  /** blf_ctx: four S-boxes of 256 words in one table, and the subkeys. */
  datatype Ctx = Ctx(S: seq<bv32>, P: seq<bv32>)

  predicate Keyed(c: Ctx) {
    |c.S| == 1024 && |c.P| == 18
  }

  /** Byte k of a word, least significant first. */
  function Byte(x: bv32, k: nat): bv8
    requires k < 4
  {
    ((if k == 3 then x >> 24 else if k == 2 then x >> 16 else if k == 1 then x >> 8 else x) & 0xFF) as bv8
  }

  /** The word of four bytes, most significant first. */
  function Word(a: bv8, b: bv8, c: bv8, d: bv8): bv32 {
    ((a as bv32) << 24) | ((b as bv32) << 16) | ((c as bv32) << 8) | (d as bv32)
  }

  lemma {:induction false} WordBytes(a: bv8, b: bv8, c: bv8, d: bv8)
    ensures var w := Word(a, b, c, d); Byte(w, 3) == a && Byte(w, 2) == b && Byte(w, 1) == c && Byte(w, 0) == d
  {
  }

  lemma {:induction false} BytesWord(x: bv32)
    ensures Word(Byte(x, 3), Byte(x, 2), Byte(x, 1), Byte(x, 0)) == x
  {
  }

  /** The number a word stands for. */
  function Number(x: bv32): int { x as int }

  function ByteNumber(a: bv8): int { a as int }

  /** The byte of a number below 256, put together from its hexadecimal digits. */
  function ByteOf(n: int): bv8
    requires 0 <= n < 0x100
  {
    Nibbles((n / 0x10) as bv4, (n % 0x10) as bv4)
  }

  function Nibbles(h: bv4, l: bv4): bv8 { ((h as bv8) << 4) | (l as bv8) }

  lemma {:induction false} NibblesAre(h: bv4, l: bv4)
    ensures ByteNumber(Nibbles(h, l)) == 0x10 * (h as int) + l as int
  {
  }

  lemma {:induction false} NibbleThere(n: int)
    requires 0 <= n < 0x10
    ensures (n as bv4) as int == n
  {
  }

  lemma {:induction false} ByteOfIs(n: int)
    requires 0 <= n < 0x100
    ensures ByteNumber(ByteOf(n)) == n
  {
    hide ByteNumber, Nibbles;
    NibblesAre((n / 0x10) as bv4, (n % 0x10) as bv4);
    NibbleThere(n / 0x10);
    NibbleThere(n % 0x10);
  }

  lemma {:induction false} ByteUnique(a: bv8, b: bv8)
    requires ByteNumber(a) == ByteNumber(b)
    ensures a == b
  {
  }

  lemma {:induction false} ByteRange(a: bv8)
    ensures 0 <= ByteNumber(a) < 0x100
  {
  }

  /** The number of a word is that of its bytes, the first the most significant. */
  lemma {:induction false} WordIs(a: bv8, b: bv8, c: bv8, d: bv8)
    ensures Number(Word(a, b, c, d)) ==
      0x100_0000 * ByteNumber(a) + 0x1_0000 * ByteNumber(b) + 0x100 * ByteNumber(c) + ByteNumber(d)
  {
  }

  /** Byte k of a word as a table index. */
  function Index(x: bv32, k: nat): (i: nat)
    requires k < 4
    ensures i < 256
  {
    Byte(x, k) as int
  }

  /** The sum in 32 bits, put together from its bytes. */
  function Plus(x: bv32, y: bv32): bv32 { ToWord((Number(x) + Number(y)) % 0x1_0000_0000) }

  function ToWord(n: int): bv32
    requires 0 <= n < 0x1_0000_0000
  {
    Word(ByteOf(n / 0x100_0000), ByteOf(n / 0x1_0000 % 0x100), ByteOf(n / 0x100 % 0x100), ByteOf(n % 0x100))
  }

  function Xor(x: bv32, y: bv32): bv32 { x ^ y }

  function F(s: seq<bv32>, x: bv32): bv32
    requires |s| == 1024
  {
    Plus(Xor(Plus(s[Index(x, 3)], s[0x100 + Index(x, 2)]), s[0x200 + Index(x, 1)]), s[0x300 + Index(x, 0)])
  }

  /** BLFRND. */
  function Round(c: Ctx, i: bv32, j: bv32, n: nat): bv32
    requires Keyed(c) && n < 18
  {
    Xor(i, Xor(F(c.S, j), c.P[n]))
  }

  lemma {:induction false} XorTwice(x: bv32, y: bv32)
    ensures Xor(Xor(x, y), y) == x
  {
  }

  // ---- What F reads and how it combines it ----------------------------------

  lemma {:induction false} IndexIs(x: bv32, k: nat)
    requires k < 4
    ensures Index(x, k) == ByteNumber(Byte(x, k))
  {
  }

  lemma {:induction false} TakeByte(q: int, r: int)
    requires 0 <= r < 0x100
    ensures (0x100 * q + r) / 0x100 == q && (0x100 * q + r) % 0x100 == r
  {
  }

  lemma {:induction false} HigherBytes(w: int)
    ensures w / 0x1_0000 == w / 0x100 / 0x100 && w / 0x100_0000 == w / 0x100 / 0x100 / 0x100
  {
  }

  lemma {:induction false} PlaceValues(a: int, b: int, c: int, d: int, w: int)
    requires 0 <= a < 0x100 && 0 <= b < 0x100 && 0 <= c < 0x100 && 0 <= d < 0x100
    requires w == 0x100_0000 * a + 0x1_0000 * b + 0x100 * c + d
    ensures w / 0x100_0000 == a && w / 0x1_0000 % 0x100 == b && w / 0x100 % 0x100 == c && w % 0x100 == d
  {
    TakeByte(0x1_0000 * a + 0x100 * b + c, d);
    TakeByte(0x100 * a + b, c);
    TakeByte(a, b);
    HigherBytes(w);
  }

  /** The index into the first table is the most significant byte of the word, and so on. */
  lemma {:induction false} IndexesAre(x: bv32)
    ensures var w := Number(x);
      && Index(x, 3) == w / 0x100_0000 && Index(x, 2) == w / 0x1_0000 % 0x100
      && Index(x, 1) == w / 0x100 % 0x100 && Index(x, 0) == w % 0x100
  {
    hide Number, ByteNumber, Byte, Word, Index;
    var a, b, c, d := Byte(x, 3), Byte(x, 2), Byte(x, 1), Byte(x, 0);
    BytesWord(x);
    WordIs(a, b, c, d);
    ByteRange(a);
    ByteRange(b);
    ByteRange(c);
    ByteRange(d);
    IndexIs(x, 0);
    IndexIs(x, 1);
    IndexIs(x, 2);
    IndexIs(x, 3);
    PlaceValues(ByteNumber(a), ByteNumber(b), ByteNumber(c), ByteNumber(d), Number(x));
  }

  /** Words that stand for the same number are the same. */
  lemma {:induction false} NumberUnique(x: bv32, y: bv32)
    requires Number(x) == Number(y)
    ensures x == y
  {
    hide Number, Byte, ByteNumber, Word, Index;
    IndexesAre(x);
    IndexesAre(y);
    forall k: nat | k < 4 ensures Byte(x, k) == Byte(y, k) {
      IndexIs(x, k);
      IndexIs(y, k);
      ByteUnique(Byte(x, k), Byte(y, k));
    }
    BytesWord(x);
    BytesWord(y);
  }

  lemma {:induction false} NumberBound(x: bv32)
    ensures 0 <= Number(x) < 0x1_0000_0000
  {
    hide Number, Byte, ByteNumber, Word;
    BytesWord(x);
    WordIs(Byte(x, 3), Byte(x, 2), Byte(x, 1), Byte(x, 0));
    ByteRange(Byte(x, 3));
    ByteRange(Byte(x, 2));
    ByteRange(Byte(x, 1));
    ByteRange(Byte(x, 0));
  }

  lemma {:induction false} ToWordIs(n: int)
    requires 0 <= n < 0x1_0000_0000
    ensures Number(ToWord(n)) == n
  {
    hide Number, ByteNumber, Word, ByteOf;
    var a, b, c, d := n / 0x100_0000, n / 0x1_0000 % 0x100, n / 0x100 % 0x100, n % 0x100;
    WordIs(ByteOf(a), ByteOf(b), ByteOf(c), ByteOf(d));
    ByteOfIs(a);
    ByteOfIs(b);
    ByteOfIs(c);
    ByteOfIs(d);
    DigitSum(n);
  }

  lemma {:induction false} DigitSum(n: int)
    requires 0 <= n < 0x1_0000_0000
    ensures n == 0x100_0000 * (n / 0x100_0000) + 0x1_0000 * (n / 0x1_0000 % 0x100) + 0x100 * (n / 0x100 % 0x100) + n % 0x100
  {
  }

  /** The sum of the numbers, modulo 2^32. */
  lemma {:induction false} PlusIs(x: bv32, y: bv32)
    ensures Number(Plus(x, y)) == (Number(x) + Number(y)) % 0x1_0000_0000
  {
    hide Number, ToWord;
    ToWordIs((Number(x) + Number(y)) % 0x1_0000_0000);
  }

  lemma {:induction false} ModCancels(x: int, y: int, z: int)
    requires 0 <= x < 0x1_0000_0000 && 0 <= y < 0x1_0000_0000 && 0 <= z < 0x1_0000_0000
    requires (x + z) % 0x1_0000_0000 == (y + z) % 0x1_0000_0000
    ensures x == y
  {
  }

  lemma {:induction false} PlusComm(x: bv32, y: bv32)
    ensures Plus(x, y) == Plus(y, x)
  {
    hide Number, ToWord;
  }

  lemma {:induction false} PlusCancels(x: bv32, y: bv32, z: bv32)
    ensures Plus(x, z) == Plus(y, z) <==> x == y
    ensures Plus(z, x) == Plus(z, y) <==> x == y
  {
    hide Plus, Number;
    PlusComm(x, z);
    PlusComm(y, z);
    if Plus(x, z) == Plus(y, z) {
      PlusIs(x, z);
      PlusIs(y, z);
      NumberBound(x);
      NumberBound(y);
      NumberBound(z);
      ModCancels(Number(x), Number(y), Number(z));
      NumberUnique(x, y);
    }
  }

  lemma {:induction false} XorBack(x: bv32, z: bv32)
    ensures Xor(Xor(z, x), z) == x
  {
  }

  lemma {:induction false} XorCancels(x: bv32, y: bv32, z: bv32)
    ensures Xor(x, z) == Xor(y, z) <==> x == y
    ensures Xor(z, x) == Xor(z, y) <==> x == y
  {
    hide Xor;
    XorTwice(x, z);
    XorTwice(y, z);
    XorBack(x, z);
    XorBack(y, z);
  }

  lemma {:induction false} XorZero(x: bv32)
    ensures Xor(x, 0) == x
  {
  }

  lemma {:induction false} ZeroNumber()
    ensures Number(0) == 0
  {
  }

  lemma {:induction false} PlusZero(x: bv32)
    ensures Plus(x, 0) == x
  {
    hide Plus, Number;
    PlusIs(x, 0);
    ZeroNumber();
    NumberBound(x);
    NumberUnique(Plus(x, 0), x);
  }

  /** Another value at a table place changes F exactly when it is one of the four places that the bytes of the word select,
      the most significant in the first table. */
  lemma {:induction false} FReads(s: seq<bv32>, x: bv32, n: nat, v: bv32)
    requires |s| == 1024 && n < 1024 && v != s[n]
    ensures F(s[n := v], x) != F(s, x) <==>
      var w := Number(x);
      n == w / 0x100_0000 || n == 0x100 + w / 0x1_0000 % 0x100 || n == 0x200 + w / 0x100 % 0x100 || n == 0x300 + w % 0x100
  {
    hide Number, Index, Plus, Xor;
    IndexesAre(x);
    var a, b, c, d := s[Index(x, 3)], s[0x100 + Index(x, 2)], s[0x200 + Index(x, 1)], s[0x300 + Index(x, 0)];
    PlusCancels(a, v, b);
    PlusCancels(b, v, a);
    XorCancels(Plus(a, b), Plus(v, b), c);
    XorCancels(Plus(a, b), Plus(a, v), c);
    XorCancels(c, v, Plus(a, b));
    PlusCancels(Xor(Plus(a, b), c), Xor(Plus(v, b), c), d);
    PlusCancels(Xor(Plus(a, b), c), Xor(Plus(a, v), c), d);
    PlusCancels(Xor(Plus(a, b), c), Xor(Plus(a, b), v), d);
    PlusCancels(d, v, Xor(Plus(a, b), c));
  }

  /** F adds the second entry to the first, xors the third onto that and adds the fourth, modulo 2^32. */
  lemma {:induction false} FCombines(s: seq<bv32>, x: bv32, a: nat, b: nat, c: nat, d: nat)
    requires |s| == 1024
    requires var w := Number(x);
      a == w / 0x100_0000 && b == 0x100 + w / 0x1_0000 % 0x100 && c == 0x200 + w / 0x100 % 0x100 && d == 0x300 + w % 0x100
    ensures a < 0x100 <= b < 0x200 <= c < 0x300 <= d < 0x400
    ensures s[c] == 0 && s[d] == 0 ==> Number(F(s, x)) == (Number(s[a]) + Number(s[b])) % 0x1_0000_0000
    ensures s[d] == 0 ==> F(s, x) == Xor(F(s[c := 0], x), s[c])
    ensures Number(F(s, x)) == (Number(F(s[d := 0], x)) + Number(s[d])) % 0x1_0000_0000
  {
    hide Number, Index, F, Plus, Xor;
    IndexesAre(x);
    FIs(s, x);
    FIs(s[c := 0], x);
    FIs(s[d := 0], x);
    var sum := Plus(s[a], s[b]);
    var mix := Xor(sum, s[c]);
    XorZero(sum);
    PlusZero(sum);
    PlusZero(mix);
    PlusIs(s[a], s[b]);
    PlusIs(mix, s[d]);
  }

  lemma {:induction false} FIs(s: seq<bv32>, x: bv32)
    requires |s| == 1024
    ensures F(s, x) == Plus(Xor(Plus(s[Index(x, 3)], s[0x100 + Index(x, 2)]), s[0x200 + Index(x, 1)]), s[0x300 + Index(x, 0)])
  {
  }

  // ---- Feistel networks ---------------------------------------------------

  /** A Feistel network over a round function: every subkey replaces one half and swaps the halves. */
  function Feistel(f: bv32 -> bv32, keys: seq<bv32>, a: bv32, b: bv32): (bv32, bv32) {
    if keys == [] then (a, b) else Feistel(f, keys[1..], Xor(b, Xor(f(a), keys[0])), a)
  }

  /** Blowfish's round function. */
  function RoundF(S: seq<bv32>): bv32 -> bv32
    requires |S| == 1024
  {
    x => F(S, x)
  }

  /** The cipher of any number of subkeys: whitening, the network, whitening with the halves swapped back. */
  function Cipher(f: bv32 -> bv32, P: seq<bv32>, x: (bv32, bv32)): (bv32, bv32)
    requires |P| >= 2
  {
    var (a, b) := Feistel(f, P[1..|P| - 1], Xor(x.0, P[0]), x.1);
    (Xor(b, P[|P| - 1]), a)
  }

  function Reversed(s: seq<bv32>): (r: seq<bv32>)
    ensures |r| == |s| && forall i :: 0 <= i < |s| ==> r[i] == s[|s| - 1 - i]
  {
    if s == [] then [] else Reversed(s[1..]) + [s[0]]
  }

  lemma {:induction false} FeistelSnoc(f: bv32 -> bv32, keys: seq<bv32>, k: bv32, a: bv32, b: bv32)
    ensures Feistel(f, keys + [k], a, b) == var (x, y) := Feistel(f, keys, a, b); (Xor(y, Xor(f(x), k)), x)
  {
    hide Xor;
    if keys == [] {
      assert [] + [k] == [k] && [k][1..] == [];
    } else {
      assert (keys + [k])[1..] == keys[1..] + [k];
      FeistelSnoc(f, keys[1..], k, Xor(b, Xor(f(a), keys[0])), a);
    }
  }

  /** The network with the subkeys in reverse order leads back, halves swapped. */
  lemma {:induction false} FeistelBack(f: bv32 -> bv32, keys: seq<bv32>, x: bv32, y: bv32)
    ensures var (a, b) := Feistel(f, keys, x, y); Feistel(f, Reversed(keys), b, a) == (y, x)
  {
    hide Xor;
    if keys != [] {
      var (a, b) := Feistel(f, keys, x, y);
      var k := Xor(f(x), keys[0]);
      FeistelBack(f, keys[1..], Xor(y, k), x);
      FeistelSnoc(f, Reversed(keys[1..]), keys[0], b, a);
      XorTwice(y, k);
    }
  }

  /** A cipher is undone by the cipher of the reversed subkeys. */
  lemma {:induction false} CipherBack(f: bv32 -> bv32, P: seq<bv32>, x: (bv32, bv32))
    requires |P| >= 2
    ensures Cipher(f, Reversed(P), Cipher(f, P, x)) == x
  {
    hide Xor, Feistel;
    var n := |P| - 1;
    var keys, Q := P[1..n], Reversed(P);
    assert Reversed(keys) == Q[1..n];
    var (a, b) := Feistel(f, keys, Xor(x.0, P[0]), x.1);
    FeistelBack(f, keys, Xor(x.0, P[0]), x.1);
    XorTwice(b, P[n]);
    XorTwice(x.0, P[0]);
  }

  /** The keys at even places, xored onto x; and those at odd places. */
  function Evens(keys: seq<bv32>, x: bv32): bv32 {
    if keys == [] then x else Odds(keys[1..], Xor(x, keys[0]))
  }

  function Odds(keys: seq<bv32>, x: bv32): bv32 {
    if keys == [] then x else Evens(keys[1..], x)
  }

  lemma {:induction false} EvensSnoc(keys: seq<bv32>, k: bv32, x: bv32)
    ensures |keys| % 2 == 0 ==> Evens(keys + [k], x) == Xor(Evens(keys, x), k) && Odds(keys + [k], x) == Odds(keys, x)
    ensures |keys| % 2 == 1 ==> Odds(keys + [k], x) == Xor(Odds(keys, x), k) && Evens(keys + [k], x) == Evens(keys, x)
  {
    hide Xor;
    if keys == [] {
      assert [] + [k] == [k] && [k][1..] == [];
    } else {
      assert (keys + [k])[1..] == keys[1..] + [k];
      EvensSnoc(keys[1..], k, Xor(x, keys[0]));
      EvensSnoc(keys[1..], k, x);
    }
  }

  lemma {:induction false} SilentFeistel(f: bv32 -> bv32, keys: seq<bv32>, a: bv32, b: bv32)
    requires forall w :: f(w) == 0
    ensures Feistel(f, keys, a, b) ==
      if |keys| % 2 == 0 then (Odds(keys, a), Evens(keys, b)) else (Evens(keys, b), Odds(keys, a))
  {
    hide Xor;
    if keys != [] {
      SilentKey(keys[0]);
      SilentFeistel(f, keys[1..], Xor(b, keys[0]), a);
    }
  }

  lemma {:induction false} SilentKey(k: bv32)
    ensures Xor(0, k) == k
  {
  }

  /** Which subkey goes to which half: under a round function that gives zero the left half comes out on the right with the
      even subkeys xored on, the right half on the left with the odd ones. */
  lemma {:induction false} SilentCipher(f: bv32 -> bv32, P: seq<bv32>, x: (bv32, bv32))
    requires |P| >= 2 && |P| % 2 == 0 && forall w :: f(w) == 0
    ensures Cipher(f, P, x) == (Odds(P, x.1), Evens(P, x.0))
  {
    hide Xor, Feistel;
    var n := |P| - 1;
    var keys := P[1..n];
    SilentFeistel(f, keys, Xor(x.0, P[0]), x.1);
    assert P[1..] == keys + [P[n]];
    EvensSnoc(keys, P[n], x.1);
    EvensSnoc(keys, P[n], Xor(x.0, P[0]));
  }

  /** The halves of the network one after the other: each is the one before the last, with the round function of the last
      and its subkey xored on. */
  ghost predicate Halves(f: bv32 -> bv32, P: seq<bv32>, x: (bv32, bv32), h: seq<bv32>) {
    && 2 <= |P| == |h| && h[0] == x.1 && h[1] == Xor(x.0, P[0])
    && forall i :: 2 <= i < |P| ==> h[i] == Xor(h[i - 2], Xor(f(h[i - 1]), P[i - 1]))
  }

  lemma {:induction false} NetworkHalves(f: bv32 -> bv32, P: seq<bv32>, x: (bv32, bv32), h: seq<bv32>, n: nat)
    requires Halves(f, P, x, h) && 1 <= n < |P|
    ensures Feistel(f, P[n..|P| - 1], h[n], h[n - 1]) == (h[|P| - 1], h[|P| - 2])
    decreases |P| - n
  {
    hide Xor;
    if n < |P| - 1 {
      assert P[n..|P| - 1][1..] == P[n + 1..|P| - 1];
      assert h[n + 1] == Xor(h[n - 1], Xor(f(h[n]), P[n]));
      NetworkHalves(f, P, x, h, n + 1);
    }
  }

  /** The cipher puts out the last half but one, whitened by the last subkey, and the last. */
  lemma {:induction false} CipherHalves(f: bv32 -> bv32, P: seq<bv32>, x: (bv32, bv32), h: seq<bv32>)
    requires Halves(f, P, x, h)
    ensures Cipher(f, P, x) == (Xor(h[|P| - 2], P[|P| - 1]), h[|P| - 1])
  {
    hide Xor, Feistel;
    NetworkHalves(f, P, x, h, 1);
  }

  /** The cipher and its inverse on keyed contexts. */
  function Encipher(c: Ctx, x: (bv32, bv32)): (bv32, bv32)
    requires Keyed(c)
  {
    Cipher(RoundF(c.S), c.P, x)
  }

  function Decipher(c: Ctx, x: (bv32, bv32)): (bv32, bv32)
    requires Keyed(c)
  {
    Cipher(RoundF(c.S), Reversed(c.P), x)
  }

  /** The rounds from n on, with the subkeys K. */
  ghost function Net(c: Ctx, K: seq<bv32>, n: nat, a: bv32, b: bv32): (bv32, bv32)
    requires Keyed(c) && |K| == 18 && n <= 17
  {
    Feistel(RoundF(c.S), K[n..17], a, b)
  }

  lemma {:induction false} NetStep(c: Ctx, K: seq<bv32>, n: nat, m: nat, a: bv32, b: bv32)
    requires Keyed(c) && |K| == 18 && 1 <= n < 17 && m < 18 && K[n] == c.P[m]
    ensures Net(c, K, n, a, b) == Net(c, K, n + 1, Round(c, b, a, m), a)
  {
    hide F, Xor;
    assert K[n..17][1..] == K[n + 1..17];
  }

  lemma {:induction false} NetEnds(c: Ctx, K: seq<bv32>, x: (bv32, bv32), a: bv32, b: bv32)
    requires Keyed(c) && |K| == 18 && Net(c, K, 17, a, b) == Net(c, K, 1, Xor(x.0, K[0]), x.1)
    ensures Cipher(RoundF(c.S), K, x) == (Xor(b, K[17]), a)
  {
    hide F, Xor;
  }

  /** Blowfish_encipher, in place on the two words of x. */
  method EncipherWords(c: Ctx, x: array<bv32>)
    requires Keyed(c) && x.Length == 2
    modifies x
    ensures (x[0], x[1]) == Encipher(c, old((x[0], x[1])))
  {
    hide F, Xor, Feistel, Net, Round, Cipher;
    ghost var K, X := c.P, (x[0], x[1]);
    var Xl, Xr := x[0], x[1];
    Xl := Xor(Xl, c.P[0]);
    NetStep(c, K, 1, 1, Xl, Xr);
    Xr := Round(c, Xr, Xl, 1);
    NetStep(c, K, 2, 2, Xr, Xl);
    Xl := Round(c, Xl, Xr, 2);
    NetStep(c, K, 3, 3, Xl, Xr);
    Xr := Round(c, Xr, Xl, 3);
    NetStep(c, K, 4, 4, Xr, Xl);
    Xl := Round(c, Xl, Xr, 4);
    NetStep(c, K, 5, 5, Xl, Xr);
    Xr := Round(c, Xr, Xl, 5);
    NetStep(c, K, 6, 6, Xr, Xl);
    Xl := Round(c, Xl, Xr, 6);
    NetStep(c, K, 7, 7, Xl, Xr);
    Xr := Round(c, Xr, Xl, 7);
    NetStep(c, K, 8, 8, Xr, Xl);
    Xl := Round(c, Xl, Xr, 8);
    NetStep(c, K, 9, 9, Xl, Xr);
    Xr := Round(c, Xr, Xl, 9);
    NetStep(c, K, 10, 10, Xr, Xl);
    Xl := Round(c, Xl, Xr, 10);
    NetStep(c, K, 11, 11, Xl, Xr);
    Xr := Round(c, Xr, Xl, 11);
    NetStep(c, K, 12, 12, Xr, Xl);
    Xl := Round(c, Xl, Xr, 12);
    NetStep(c, K, 13, 13, Xl, Xr);
    Xr := Round(c, Xr, Xl, 13);
    NetStep(c, K, 14, 14, Xr, Xl);
    Xl := Round(c, Xl, Xr, 14);
    NetStep(c, K, 15, 15, Xl, Xr);
    Xr := Round(c, Xr, Xl, 15);
    NetStep(c, K, 16, 16, Xr, Xl);
    Xl := Round(c, Xl, Xr, 16);
    NetEnds(c, K, X, Xl, Xr);
    x[0] := Xor(Xr, c.P[17]);
    x[1] := Xl;
  }

  /** Blowfish_decipher, in place on the two words of x. */
  method DecipherWords(c: Ctx, x: array<bv32>)
    requires Keyed(c) && x.Length == 2
    modifies x
    ensures (x[0], x[1]) == Decipher(c, old((x[0], x[1])))
  {
    hide F, Xor, Feistel, Net, Round, Cipher, Reversed;
    ghost var K, X := Reversed(c.P), (x[0], x[1]);
    var Xl, Xr := x[0], x[1];
    Xl := Xor(Xl, c.P[17]);
    NetStep(c, K, 1, 16, Xl, Xr);
    Xr := Round(c, Xr, Xl, 16);
    NetStep(c, K, 2, 15, Xr, Xl);
    Xl := Round(c, Xl, Xr, 15);
    NetStep(c, K, 3, 14, Xl, Xr);
    Xr := Round(c, Xr, Xl, 14);
    NetStep(c, K, 4, 13, Xr, Xl);
    Xl := Round(c, Xl, Xr, 13);
    NetStep(c, K, 5, 12, Xl, Xr);
    Xr := Round(c, Xr, Xl, 12);
    NetStep(c, K, 6, 11, Xr, Xl);
    Xl := Round(c, Xl, Xr, 11);
    NetStep(c, K, 7, 10, Xl, Xr);
    Xr := Round(c, Xr, Xl, 10);
    NetStep(c, K, 8, 9, Xr, Xl);
    Xl := Round(c, Xl, Xr, 9);
    NetStep(c, K, 9, 8, Xl, Xr);
    Xr := Round(c, Xr, Xl, 8);
    NetStep(c, K, 10, 7, Xr, Xl);
    Xl := Round(c, Xl, Xr, 7);
    NetStep(c, K, 11, 6, Xl, Xr);
    Xr := Round(c, Xr, Xl, 6);
    NetStep(c, K, 12, 5, Xr, Xl);
    Xl := Round(c, Xl, Xr, 5);
    NetStep(c, K, 13, 4, Xl, Xr);
    Xr := Round(c, Xr, Xl, 4);
    NetStep(c, K, 14, 3, Xr, Xl);
    Xl := Round(c, Xl, Xr, 3);
    NetStep(c, K, 15, 2, Xl, Xr);
    Xr := Round(c, Xr, Xl, 2);
    NetStep(c, K, 16, 1, Xr, Xl);
    Xl := Round(c, Xl, Xr, 1);
    NetEnds(c, K, X, Xl, Xr);
    x[0] := Xor(Xr, c.P[0]);
    x[1] := Xl;
  }
}

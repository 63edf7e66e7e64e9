/** The unsigned digit-buffer loops. A C pointer into a buffer is an array together with an offset. */
module Buffers {
  import opened Digits

  /** The n digits that start at offset o. */
  ghost function Run(d: seq<digit>, o: nat, n: nat): (s: seq<digit>)
    requires o + n <= |d|
    ensures |s| == n
  {
    d[o..o + n]
  }

  /** Writing upwards from `to` never destroys a digit of the n-digit run at `from` before it is read. */
  predicate ReadsAhead(src: array<digit>, from: nat, n: nat, dst: array<digit>, to: nat) {
    src != dst || to <= from || from + n <= to
  }

  /** The n digits at `from` and the m digits at `to` share no storage. */
  predicate Apart(src: array<digit>, from: nat, n: nat, dst: array<digit>, to: nat, m: nat) {
    src != dst || to + m <= from || from + n <= to
  }

  /** d' differs from d at most in the n digits at offset o. */
  ghost predicate OnlyRun(d: seq<digit>, d': seq<digit>, o: nat, n: nat) {
    |d| == |d'| && forall i :: 0 <= i < |d| && !(o <= i < o + n) ==> d'[i] == d[i]
  }

  /** A run outside the digits written is as it was. */
  lemma {:induction false} SameRun(d: seq<digit>, d': seq<digit>, o: nat, n: nat, wo: nat, m: nat)
    requires o + n <= |d| && OnlyRun(d, d', wo, m)
    requires wo + m <= o || o + n <= wo
    ensures Run(d', o, n) == Run(d, o, n)
  {
  }

  lemma {:induction false} RunAt(d: seq<digit>, o: nat, n: nat, i: nat)
    requires o + n <= |d| && i < n
    ensures Run(d, o, n)[i] == d[o + i]
  {
  }

  lemma {:induction false} RunSplit(d: seq<digit>, o: nat, n: nat, m: nat)
    requires o + n + m <= |d|
    ensures Run(d, o, n + m) == Run(d, o, n) + Run(d, o + n, m)
  {
  }

  /** Zero digits on top of a run do not count. */
  lemma {:induction false} RunTrim(d: seq<digit>, o: nat, n: nat, total: nat)
    requires n <= total && o + total <= |d|
    requires forall i :: o + n <= i < o + total ==> d[i] == 0
    ensures Val(Run(d, o, total)) == Val(Run(d, o, n))
  {
    assert Run(d, o, total)[..n] == Run(d, o, n);
    ValTrim(Run(d, o, total), n);
  }

  /** Writing the next digit extends the run below it. */
  lemma {:induction false} RunGrows(d: seq<digit>, o: nat, n: nat, x: digit)
    requires o + n < |d|
    ensures Run(d[o + n := x], o, n + 1) == Run(d, o, n) + [x]
  {
  }

  /** The first loop of s_uadd: corresponding digits until the shorter number runs out. */
  method AddHead(da: array<digit>, ao: nat, db: array<digit>, bo: nat, dc: array<digit>, co: nat, size: nat,
                 ghost A: seq<int>, ghost B: seq<int>)
    returns (w: word)
    requires size <= |A| && size == |B| && ao + size <= da.Length && bo + size <= db.Length && co + size <= dc.Length
    requires ReadsAhead(da, ao, size, dc, co) && ReadsAhead(db, bo, size, dc, co)
    requires A[..size] == Run(da[..], ao, size) && B == Run(db[..], bo, size)
    modifies dc
    ensures w <= 1 && w == Carry(A, 1, B, size) && Run(dc[..], co, size) == Lows(A, 1, B, size)
    ensures OnlyRun(old(dc[..]), dc[..], co, size)
  {
    hide Carry, Lows;
    PropagateStart(A, 1, B);
    w := 0;
    var pos := 0;
    while pos < size
      invariant pos <= size && w <= 1
      invariant w == Carry(A, 1, B, pos)
      invariant Run(dc[..], co, pos) == Lows(A, 1, B, pos)
      invariant OnlyRun(old(dc[..]), dc[..], co, pos)
    {
      assert da[ao + pos] == A[..size][pos] && db[bo + pos] == B[pos];
      w := w + da[ao + pos] + db[bo + pos];
      PropagateStep(A, 1, B, pos, da[ao + pos], db[bo + pos]);
      RunGrows(dc[..], co, pos, w % RADIX);
      dc[co + pos] := w % RADIX;
      w := w / RADIX;
      pos := pos + 1;
    }
  }

  /** The second loop of s_uadd: carries on into the longer number. */
  method AddTail(da: array<digit>, ao: nat, dc: array<digit>, co: nat, from: nat, size: nat, w0: word,
                 ghost A: seq<int>, ghost B: seq<int>)
    returns (w: word)
    requires |B| <= from <= size == |A| && ao + size <= da.Length && co + size <= dc.Length
    requires ReadsAhead(da, ao + from, size - from, dc, co + from)
    requires w0 <= 1 && w0 == Carry(A, 1, B, from) && Run(dc[..], co, from) == Lows(A, 1, B, from)
    requires A[from..] == Run(da[..], ao + from, size - from)
    modifies dc
    ensures w <= 1 && w == Carry(A, 1, B, size) && Run(dc[..], co, size) == Lows(A, 1, B, size)
    ensures OnlyRun(old(dc[..]), dc[..], co + from, size - from)
  {
    hide Carry, Lows;
    w := w0;
    var pos := from;
    while pos < size
      invariant from <= pos <= size && w <= 1
      invariant w == Carry(A, 1, B, pos)
      invariant Run(dc[..], co, pos) == Lows(A, 1, B, pos)
      invariant OnlyRun(old(dc[..]), dc[..], co + from, pos - from)
    {
      assert da[ao + pos] == A[from..][pos - from];
      w := w + da[ao + pos];
      PropagateStep(A, 1, B, pos, da[ao + pos], 0);
      RunGrows(dc[..], co, pos, w % RADIX);
      dc[co + pos] := w % RADIX;
      w := w / RADIX;
      pos := pos + 1;
    }
  }

  /** s_uadd: adds two runs and returns the carry out. */
  method UAdd(da: array<digit>, ao: nat, db: array<digit>, bo: nat, dc: array<digit>, co: nat,
              sizeA: nat, sizeB: nat)
    returns (carry: digit)
    requires ao + sizeA <= da.Length && bo + sizeB <= db.Length && co + Max(sizeA, sizeB) <= dc.Length
    requires ReadsAhead(da, ao, sizeA, dc, co) && ReadsAhead(db, bo, sizeB, dc, co)
    modifies dc
    ensures carry <= 1
    ensures Val(Run(dc[..], co, Max(sizeA, sizeB)) + [carry])
         == old(Val(Run(da[..], ao, sizeA)) + Val(Run(db[..], bo, sizeB)))
    ensures OnlyRun(old(dc[..]), dc[..], co, Max(sizeA, sizeB))
  {
    if sizeB > sizeA {
      carry := AddOrdered(db, bo, da, ao, dc, co, sizeB, sizeA);
    } else {
      carry := AddOrdered(da, ao, db, bo, dc, co, sizeA, sizeB);
    }
  }

  /** s_uadd once the longer summand is first. */
  method AddOrdered(da: array<digit>, ao: nat, db: array<digit>, bo: nat, dc: array<digit>, co: nat,
                    sizeA: nat, sizeB: nat)
    returns (carry: digit)
    requires sizeB <= sizeA
    requires ao + sizeA <= da.Length && bo + sizeB <= db.Length && co + sizeA <= dc.Length
    requires ReadsAhead(da, ao, sizeA, dc, co) && ReadsAhead(db, bo, sizeB, dc, co)
    modifies dc
    ensures carry <= 1
    ensures Val(Run(dc[..], co, sizeA) + [carry]) == old(Val(Run(da[..], ao, sizeA)) + Val(Run(db[..], bo, sizeB)))
    ensures OnlyRun(old(dc[..]), dc[..], co, sizeA)
  {
    hide Val, Shift;
    ghost var A, B := Run(da[..], ao, sizeA), Run(db[..], bo, sizeB);
    assert A[..sizeB] == Run(da[..], ao, sizeB);
    assert A[sizeB..] == Run(da[..], ao + sizeB, sizeA - sizeB);
    var w := AddHead(da, ao, db, bo, dc, co, sizeB, A, B);
    if da == dc {
      SameRun(old(dc[..]), dc[..], ao + sizeB, sizeA - sizeB, co, sizeB);
    }
    carry := AddTail(da, ao, dc, co, sizeB, sizeA, w, A, B);
    LowsVal(A, 1, B, sizeA);
  }

  /** One step of a borrow loop: the test on the upper half of the word is floor division. */
  lemma {:induction false} BorrowStep(a: seq<int>, b: seq<int>, n: nat, x: digit, y: digit, w: int)
    requires At(a, n) == x && At(b, n) == y && 0 <= w <= 1 && w == -Carry(a, -1, b, n)
    ensures var u := RADIX + x - w - y;
      && 0 <= u < WORD
      && Lows(a, -1, b, n + 1) == Lows(a, -1, b, n) + [u % RADIX]
      && (if u / RADIX == 0 then 1 else 0) == -Carry(a, -1, b, n + 1)
  {
    hide Lows, Carry;
    PropagateStep(a, -1, b, n, x, y);
    var u, v := RADIX + x - w - y, x + -1 * y + -w;
    assert u == v + RADIX;
  }

  /** The first loop of s_usub: corresponding digits with the borrow. */
  method SubHead(da: array<digit>, ao: nat, db: array<digit>, bo: nat, dc: array<digit>, co: nat, size: nat,
                 ghost A: seq<int>, ghost B: seq<int>)
    returns (w: word)
    requires size <= |A| && size == |B| && ao + size <= da.Length && bo + size <= db.Length && co + size <= dc.Length
    requires ReadsAhead(da, ao, size, dc, co) && ReadsAhead(db, bo, size, dc, co)
    requires A[..size] == Run(da[..], ao, size) && B == Run(db[..], bo, size)
    modifies dc
    ensures w <= 1 && w == -Carry(A, -1, B, size) && Run(dc[..], co, size) == Lows(A, -1, B, size)
    ensures OnlyRun(old(dc[..]), dc[..], co, size)
  {
    hide Carry, Lows;
    PropagateStart(A, -1, B);
    w := 0;
    var pos := 0;
    while pos < size
      invariant pos <= size && w <= 1
      invariant w == -Carry(A, -1, B, pos)
      invariant Run(dc[..], co, pos) == Lows(A, -1, B, pos)
      invariant OnlyRun(old(dc[..]), dc[..], co, pos)
    {
      assert da[ao + pos] == A[..size][pos] && db[bo + pos] == B[pos];
      BorrowStep(A, B, pos, da[ao + pos], db[bo + pos], w);
      w := RADIX + da[ao + pos] - w - db[bo + pos];
      RunGrows(dc[..], co, pos, w % RADIX);
      dc[co + pos] := w % RADIX;
      w := if w / RADIX == 0 then 1 else 0;
      pos := pos + 1;
    }
  }

  /** The second loop of s_usub: the remaining upper digits. */
  method SubTail(da: array<digit>, ao: nat, dc: array<digit>, co: nat, from: nat, size: nat, w0: word,
                 ghost A: seq<int>, ghost B: seq<int>)
    returns (w: word)
    requires |B| <= from <= size == |A| && ao + size <= da.Length && co + size <= dc.Length
    requires ReadsAhead(da, ao + from, size - from, dc, co + from)
    requires w0 <= 1 && w0 == -Carry(A, -1, B, from) && Run(dc[..], co, from) == Lows(A, -1, B, from)
    requires A[from..] == Run(da[..], ao + from, size - from)
    modifies dc
    ensures w <= 1 && w == -Carry(A, -1, B, size) && Run(dc[..], co, size) == Lows(A, -1, B, size)
    ensures OnlyRun(old(dc[..]), dc[..], co + from, size - from)
  {
    hide Carry, Lows;
    w := w0;
    var pos := from;
    while pos < size
      invariant from <= pos <= size && w <= 1
      invariant w == -Carry(A, -1, B, pos)
      invariant Run(dc[..], co, pos) == Lows(A, -1, B, pos)
      invariant OnlyRun(old(dc[..]), dc[..], co + from, pos - from)
    {
      assert da[ao + pos] == A[from..][pos - from];
      BorrowStep(A, B, pos, da[ao + pos], 0, w);
      w := RADIX + da[ao + pos] - w;
      RunGrows(dc[..], co, pos, w % RADIX);
      dc[co + pos] := w % RADIX;
      w := if w / RADIX == 0 then 1 else 0;
      pos := pos + 1;
    }
  }

  /** s_usub: subtracts the second run from the first; there is never a borrow out when it is not larger. */
  method USub(da: array<digit>, ao: nat, db: array<digit>, bo: nat, dc: array<digit>, co: nat,
              sizeA: nat, sizeB: nat)
    requires sizeB <= sizeA
    requires ao + sizeA <= da.Length && bo + sizeB <= db.Length && co + sizeA <= dc.Length
    requires ReadsAhead(da, ao, sizeA, dc, co) && ReadsAhead(db, bo, sizeB, dc, co)
    requires Val(Run(db[..], bo, sizeB)) <= Val(Run(da[..], ao, sizeA))
    modifies dc
    ensures Val(Run(dc[..], co, sizeA)) == old(Val(Run(da[..], ao, sizeA)) - Val(Run(db[..], bo, sizeB)))
    ensures OnlyRun(old(dc[..]), dc[..], co, sizeA)
  {
    hide Val, Shift;
    ghost var A, B := Run(da[..], ao, sizeA), Run(db[..], bo, sizeB);
    assert A[..sizeB] == Run(da[..], ao, sizeB);
    assert A[sizeB..] == Run(da[..], ao + sizeB, sizeA - sizeB);
    var w := SubHead(da, ao, db, bo, dc, co, sizeB, A, B);
    if da == dc {
      SameRun(old(dc[..]), dc[..], ao + sizeB, sizeA - sizeB, co, sizeB);
    }
    w := SubTail(da, ao, dc, co, sizeB, sizeA, w, A, B);
    NoBorrow(A, B, w);
    assert w == 0;
  }

  lemma {:induction false} NoBorrow(A: seq<digit>, B: seq<digit>, w: int)
    requires |B| <= |A| && w == -Carry(A, -1, B, |A|)
    requires 0 <= w <= 1 && Val(B) <= Val(A)
    ensures w == 0 && Val(Lows(A, -1, B, |A|)) == Val(A) - Val(B)
  {
    hide Val;
    var L := Lows(A, -1, B, |A|);
    LowsVal(A, -1, B, |A|);
    ValSnoc(L, -w);
    ValBound(L);
    ShiftZero(|A|);
    ShiftAdd(1, -1, |A|);
    if w == 1 {
      assert false;
    }
  }

  lemma {:induction false} DigitProduct(x: digit, y: digit)
    ensures 0 <= x * y <= (RADIX - 1) * (RADIX - 1)
  {
    MulMono(0, x, y);
    MulMono(x, RADIX - 1, y);
  }

  /** The inner loop of s_umul: adds x times a run to the run at co, returning the carry out. */
  method AddMul(x: digit, db: array<digit>, bo: nat, dc: array<digit>, co: nat, sizeB: nat)
    returns (carry: digit)
    requires bo + sizeB <= db.Length && co + sizeB <= dc.Length
    requires Apart(db, bo, sizeB, dc, co, sizeB)
    modifies dc
    ensures Val(Run(dc[..], co, sizeB) + [carry])
         == old(Val(Run(dc[..], co, sizeB)) + x * Val(Run(db[..], bo, sizeB)))
    ensures OnlyRun(old(dc[..]), dc[..], co, sizeB)
  {
    hide Val, Shift, Carry, Lows;
    ghost var C, B := Run(dc[..], co, sizeB), Run(db[..], bo, sizeB);
    PropagateStart(C, x, B);
    var w: word := 0;
    var b := 0;
    while b < sizeB
      invariant b <= sizeB && w < RADIX
      invariant w == Carry(C, x, B, b)
      invariant Run(dc[..], co, b) == Lows(C, x, B, b)
      invariant OnlyRun(old(dc[..]), dc[..], co, b)
    {
      assert db[bo + b] == B[b] && dc[co + b] == C[b];
      DigitProduct(x, db[bo + b]);
      w := x * db[bo + b] + w + dc[co + b];
      PropagateStep(C, x, B, b, dc[co + b], db[bo + b]);
      RunGrows(dc[..], co, b, w % RADIX);
      dc[co + b] := w % RADIX;
      w := w / RADIX;
      b := b + 1;
    }
    carry := w;
    LowsVal(C, x, B, sizeB);
  }

  /** One row of s_umul: x times the multiplicand is added at position a of the run at co. A zero
      digit leaves the row, and the cleared place above it, alone. */
  method MulRow(x: digit, db: array<digit>, bo: nat, dc: array<digit>, co: nat, a: nat, sizeB: nat)
    requires bo + sizeB <= db.Length && co + a + sizeB < dc.Length
    requires Apart(db, bo, sizeB, dc, co + a, sizeB + 1) && dc[co + a + sizeB] == 0
    modifies dc
    ensures Val(Run(dc[..], co, a + 1 + sizeB))
         == old(Val(Run(dc[..], co, a + sizeB)) + Shift(x * Val(Run(db[..], bo, sizeB)), a))
    ensures OnlyRun(old(dc[..]), dc[..], co + a, sizeB + 1)
  {
    hide Val, Shift;
    ghost var D, v := dc[..], Val(Run(db[..], bo, sizeB));
    if x == 0 {
      RunGrows(D, co + a, sizeB, 0);
      ValSnoc(Run(D, co + a, sizeB), 0);
      ShiftZero(sizeB);
      assert D[co + a + sizeB := 0] == D;
    } else {
      var w := AddMul(x, db, bo, dc, co + a, sizeB);
      RunGrows(dc[..], co + a, sizeB, w);
      dc[co + a + sizeB] := w;
    }
    RowAt(D, dc[..], co, a, sizeB, x * v);
  }

  /** Adding u to the row at position a adds it at that weight to the whole run. */
  lemma {:induction false} RowAt(d: seq<digit>, d': seq<digit>, co: nat, a: nat, n: nat, u: int)
    requires co + a + n < |d| && OnlyRun(d, d', co + a, n + 1)
    requires Val(Run(d', co + a, n + 1)) == Val(Run(d, co + a, n)) + u
    ensures Val(Run(d', co, a + 1 + n)) == Val(Run(d, co, a + n)) + Shift(u, a)
  {
    hide Val, Shift;
    var low, mid, mid' := Run(d, co, a), Run(d, co + a, n), Run(d', co + a, n + 1);
    SameRun(d, d', co, a, co + a, n + 1);
    RunSplit(d, co, a, n);
    RunSplit(d', co, a, n + 1);
    ValConcat(low, mid);
    ValConcat(low, mid');
    ShiftAdd(Val(mid), u, a);
  }

  /** s_umul: schoolbook product into a cleared run. */
  method UMul(da: array<digit>, ao: nat, db: array<digit>, bo: nat, dc: array<digit>, co: nat,
              sizeA: nat, sizeB: nat)
    requires ao + sizeA <= da.Length && bo + sizeB <= db.Length && co + sizeA + sizeB <= dc.Length
    requires Apart(da, ao, sizeA, dc, co, sizeA + sizeB) && Apart(db, bo, sizeB, dc, co, sizeA + sizeB)
    requires forall i :: co <= i < co + sizeA + sizeB ==> dc[i] == 0
    modifies dc
    ensures Val(Run(dc[..], co, sizeA + sizeB)) == old(Val(Run(da[..], ao, sizeA)) * Val(Run(db[..], bo, sizeB)))
    ensures OnlyRun(old(dc[..]), dc[..], co, sizeA + sizeB)
  {
    hide Val, Shift;
    ghost var A, B := Run(da[..], ao, sizeA), Run(db[..], bo, sizeB);
    ValZeros(Run(dc[..], co, sizeB));
    ValZeros(A[..0]);
    var a := 0;
    while a < sizeA
      invariant a <= sizeA
      invariant forall i :: co + a + sizeB <= i < co + sizeA + sizeB ==> dc[i] == 0
      invariant Val(Run(dc[..], co, a + sizeB)) == Val(A[..a]) * Val(B)
      invariant OnlyRun(old(dc[..]), dc[..], co, a + sizeB)
    {
      if db == dc {
        SameRun(old(dc[..]), dc[..], bo, sizeB, co, a + sizeB);
      }
      var x := da[ao + a];
      assert x == A[a] && Run(db[..], bo, sizeB) == B;
      MulRow(x, db, bo, dc, co, a, sizeB);
      RowStep(A, a, Val(B));
      a := a + 1;
    }
    assert A[..sizeA] == A;
  }

  lemma {:induction false} RowStep(A: seq<digit>, a: nat, v: int)
    requires a < |A|
    ensures Val(A[..a + 1]) * v == Val(A[..a]) * v + Shift(A[a] * v, a)
  {
    hide Val, Shift;
    ValStep(A, a);
    MulDist(Val(A[..a]), Shift(A[a], a), v);
    ShiftTimes(A[a], v, a);
  }
}

/** g_int_compress and g_int_decompress: index keys as at most 100 ranges. */
module IntRanges {
  import opened IntSets

  const MAXNUMRANGE: nat := 100

  type int4 = x: int | -0x8000_0000 <= x < 0x8000_0000

  /** a - b as a 32-bit difference, which wraps around. */
  function Diff32(a: int4, b: int4): (d: int4) {
    var d: int := a as int - b as int;
    if d >= 0x8000_0000 then d - 0x1_0000_0000 else if d < -0x8000_0000 then d + 0x1_0000_0000 else d
  }

  // ---- Cutting a list into ranges -----------------------------------------

  /** r lists the ranges of s between the cuts: a cut at c separates s[c - 1] from s[c]. */
  ghost predicate Cut(s: seq<int>, cuts: seq<nat>, r: seq<int>) {
    && |s| >= 1 && |r| == 2 * |cuts| + 2 && r[0] == s[0] && r[|r| - 1] == s[|s| - 1]
    && (forall k :: 0 <= k < |cuts| ==> 1 <= cuts[k] < |s|)
    && (forall k, l :: 0 <= k < l < |cuts| ==> cuts[k] < cuts[l])
    && (forall k :: 0 <= k < |cuts| ==> r[2 * k + 1] == s[cuts[k] - 1] && r[2 * k + 2] == s[cuts[k]])
  }

  ghost function Gap(s: seq<int>, c: nat): int
    requires 1 <= c < |s|
  {
    s[c] - s[c - 1]
  }

  /** No gap that was closed is larger than one that was kept. */
  ghost predicate Greedy(s: seq<int>, cuts: seq<nat>) {
    forall k, j :: 0 <= k < |cuts| && 1 <= cuts[k] < |s| && 1 <= j < |s| && j !in cuts ==> Gap(s, j) <= Gap(s, cuts[k])
  }

  /** No two neighbours are 2^31 or more apart. */
  ghost predicate NoHugeGap(s: seq<int>) {
    forall j :: 1 <= j < |s| ==> Gap(s, j) < 0x8000_0000
  }

  /** Disjoint ascending ranges. */
  ghost predicate RangeList(r: seq<int>) {
    && |r| % 2 == 0
    && (forall k :: 0 <= 2 * k < |r| ==> r[2 * k] <= r[2 * k + 1])
    && (forall k :: 0 < 2 * k < |r| ==> r[2 * k - 1] < r[2 * k])
  }

  lemma {:induction false} CutIsRangeList(s: seq<int>, cuts: seq<nat>, r: seq<int>)
    requires Strict(s) && Cut(s, cuts, r)
    ensures RangeList(r)
  {
    forall k | 0 <= 2 * k < |r| ensures r[2 * k] <= r[2 * k + 1] {
      var lo := if k == 0 then 0 else cuts[k - 1];
      var hi := if k == |cuts| then |s| - 1 else cuts[k] - 1;
      assert r[2 * k] == s[lo] by {
        if k > 0 {
          assert r[2 * (k - 1) + 2] == s[cuts[k - 1]];
        }
      }
      assert r[2 * k + 1] == s[hi];
      assert lo <= hi;
    }
    forall k | 0 < 2 * k < |r| ensures r[2 * k - 1] < r[2 * k] {
      assert r[2 * (k - 1) + 1] == s[cuts[k - 1] - 1] && r[2 * (k - 1) + 2] == s[cuts[k - 1]];
    }
  }

  /** v lies in one of the ranges. */
  ghost predicate InRanges(r: seq<int>, v: int) {
    exists k :: 0 <= 2 * k < |r| - 1 && r[2 * k] <= v <= r[2 * k + 1]
  }

  /** The number of cuts up to position i. */
  ghost function CutsBefore(cuts: seq<nat>, i: nat): (k: nat)
    ensures k <= |cuts|
  {
    if cuts == [] then 0
    else if cuts[|cuts| - 1] <= i then |cuts|
    else CutsBefore(cuts[..|cuts| - 1], i)
  }

  lemma {:induction false} CutsBeforeBounds(cuts: seq<nat>, i: nat)
    requires forall k, l :: 0 <= k < l < |cuts| ==> cuts[k] < cuts[l]
    ensures var k := CutsBefore(cuts, i); (k > 0 ==> cuts[k - 1] <= i) && (k < |cuts| ==> i < cuts[k])
  {
    if cuts != [] && cuts[|cuts| - 1] > i {
      CutsBeforeBounds(cuts[..|cuts| - 1], i);
    }
  }

  /** Every element lies in the range between its neighbouring cuts. */
  lemma {:induction false} CutCovers(s: seq<int>, cuts: seq<nat>, r: seq<int>, i: nat)
    requires Strict(s) && Cut(s, cuts, r) && i < |s|
    ensures InRanges(r, s[i])
  {
    var k := CutsBefore(cuts, i);
    CutsBeforeBounds(cuts, i);
    if k > 0 {
      assert r[2 * (k - 1) + 2] == s[cuts[k - 1]] <= s[i];
    }
    assert r[2 * k] <= s[i] <= r[2 * k + 1];
  }

  // ---- g_int_compress -----------------------------------------------------

  /** The two elements around an even position, taken out: the ranges before and behind it become one. */
  function Joined(r: seq<int4>, cand: nat): seq<int4>
    requires 1 <= cand < |r|
  {
    r[..cand - 1] + r[cand + 1..]
  }

  ghost function Uncut(cuts: seq<nat>, k: nat): seq<nat>
    requires k < |cuts|
  {
    cuts[..k] + cuts[k + 1..]
  }

  lemma {:induction false} JoinedCut(s: seq<int>, cuts: seq<nat>, r: seq<int4>, k: nat)
    requires Cut(s, cuts, r) && k < |cuts|
    ensures Cut(s, Uncut(cuts, k), Joined(r, 2 * k + 2))
  {
    var c, q := Uncut(cuts, k), Joined(r, 2 * k + 2);
    forall l | 0 <= l < |c| ensures q[2 * l + 1] == s[c[l] - 1] && q[2 * l + 2] == s[c[l]] {
      if l < k {
        assert r[2 * l + 1] == s[cuts[l] - 1] && r[2 * l + 2] == s[cuts[l]];
      } else {
        var m := l + 1;
        assert r[2 * m + 1] == s[cuts[m] - 1] && r[2 * m + 2] == s[cuts[m]];
      }
    }
  }

  lemma {:induction false} UncutElements(cuts: seq<nat>, k: nat, j: nat)
    requires k < |cuts| && forall p, q :: 0 <= p < q < |cuts| ==> cuts[p] < cuts[q]
    ensures j in Uncut(cuts, k) <==> j in cuts && j != cuts[k]
  {
    var c := Uncut(cuts, k);
    if j in cuts && j != cuts[k] {
      var i :| 0 <= i < |cuts| && cuts[i] == j;
      assert c[if i < k then i else i - 1] == j;
    }
    if j in c {
      var i :| 0 <= i < |c| && c[i] == j;
      assert j == cuts[if i < k then i else i + 1];
    }
  }

  /** What the search for the next gap to close finds: no 32-bit difference is smaller. */
  ghost predicate Smallest(r: seq<int4>, cand: nat) {
    && cand % 2 == 0 && 2 <= cand < |r|
    && forall i :: 2 <= i < |r| && i % 2 == 0 ==> Diff32(r[cand], r[cand - 1]) <= Diff32(r[i], r[i - 1])
  }

  /** Three gaps of 2^31 - 1 do not fit into 32 bits, so some difference is below the start value. */
  lemma {:induction false} SomeSmallGap(r: seq<int4>)
    requires RangeList(r) && |r| >= 8
    ensures exists i :: 2 <= i < |r| && i % 2 == 0 && Diff32(r[i], r[i - 1]) < 0x7fff_ffff
  {
    assert r[2 * 1] <= r[2 * 1 + 1] && r[2 * 2] <= r[2 * 2 + 1];
    assert r[2 * 1 - 1] < r[2 * 1] && r[2 * 2 - 1] < r[2 * 2] && r[2 * 3 - 1] < r[2 * 3];
    assert Diff32(r[2], r[1]) < 0x7fff_ffff || Diff32(r[4], r[3]) < 0x7fff_ffff || Diff32(r[6], r[5]) < 0x7fff_ffff;
  }

  /** The inner loop of g_int_compress. */
  method SmallestGap(dr: array<int4>, len: nat, cand0: nat) returns (cand: nat)
    requires 8 <= len <= dr.Length && len % 2 == 0 && RangeList(dr[..len])
    ensures Smallest(dr[..len], cand)
  {
    hide RangeList, Diff32, SmallestSoFar;
    ghost var r := dr[..len];
    SomeSmallGap(r);
    var min: int4 := 0x7fff_ffff;
    cand := cand0;
    var i := 2;
    NoGapYet(r, cand);
    while i < len
      invariant 2 <= i <= len && i % 2 == 0 && SmallestSoFar(r, i, min, cand)
    {
      assert dr[i] == r[i] && dr[i - 1] == r[i - 1];
      NextGap(r, i, min, cand);
      if min > Diff32(dr[i], dr[i - 1]) {
        min := Diff32(dr[i], dr[i - 1]);
        cand := i;
      }
      i := i + 2;
    }
    AllGaps(r, min, cand);
  }

  /** Among the gaps before position i none has a smaller difference than min, which is cand's unless it is the start value. */
  ghost predicate SmallestSoFar(r: seq<int4>, i: nat, min: int4, cand: nat) {
    && (forall k :: 2 <= k < i && k < |r| && k % 2 == 0 ==> min <= Diff32(r[k], r[k - 1]))
    && (min == 0x7fff_ffff || (cand % 2 == 0 && 2 <= cand < i && cand < |r| && min == Diff32(r[cand], r[cand - 1])))
  }

  lemma {:induction false} NoGapYet(r: seq<int4>, cand: nat)
    ensures SmallestSoFar(r, 2, 0x7fff_ffff, cand)
  {
  }

  lemma {:induction false} NextGap(r: seq<int4>, i: nat, min: int4, cand: nat)
    requires SmallestSoFar(r, i, min, cand) && 2 <= i < |r| && i % 2 == 0
    ensures var d := Diff32(r[i], r[i - 1]); SmallestSoFar(r, i + 2, if min > d then d else min, if min > d then i else cand)
  {
    hide Diff32;
  }

  lemma {:induction false} AllGaps(r: seq<int4>, min: int4, cand: nat)
    requires SmallestSoFar(r, |r|, min, cand)
    requires exists i :: 2 <= i < |r| && i % 2 == 0 && Diff32(r[i], r[i - 1]) < 0x7fff_ffff
    ensures Smallest(r, cand)
  {
    hide Diff32;
  }

  /** memmove over the two elements at cand - 1. */
  method CloseGap(dr: array<int4>, len: nat, cand: nat)
    requires 1 <= cand < len <= dr.Length
    modifies dr
    ensures dr[..len - 2] == Joined(old(dr[..len]), cand)
  {
    ghost var r := dr[..len];
    forall i | cand - 1 <= i < len - 2 {
      dr[i] := dr[i + 2];
    }
    assert forall i :: 0 <= i < cand - 1 ==> dr[i] == r[i];
    assert forall i :: cand - 1 <= i < len - 2 ==> dr[i] == r[i + 2];
  }

  /** Doubles every element in place, from the top. */
  method DoubleUp(dr: array<int4>, len: nat)
    requires 2 * len <= dr.Length
    modifies dr
    ensures forall j :: 0 <= j < len ==> dr[2 * j] == dr[2 * j + 1] == old(dr[j])
  {
    ghost var s := dr[..len];
    var i := len;
    while i > 0
      invariant 0 <= i <= len && dr[..i] == s[..i]
      invariant forall j :: i <= j < len ==> dr[2 * j] == dr[2 * j + 1] == s[j]
    {
      i := i - 1;
      assert dr[i] == dr[..i + 1][i] == s[i];
      dr[2 * i + 1] := dr[i];
      dr[2 * i] := dr[2 * i + 1];
    }
    assert forall j :: 0 <= j < len ==> s[j] == old(dr[j]);
  }

  ghost function AllCuts(n: nat): seq<nat>
    requires n >= 1
  {
    seq(n - 1, i requires 0 <= i < n - 1 => i + 1)
  }

  lemma {:induction false} DoubledCut(s: seq<int>, r: seq<int4>)
    requires |s| >= 1 && |r| == 2 * |s| && forall j :: 0 <= j < |s| ==> r[2 * j] == r[2 * j + 1] == s[j]
    ensures Cut(s, AllCuts(|s|), r)
  {
    var cuts := AllCuts(|s|);
    assert r[2 * 0] == s[0] && r[2 * (|s| - 1) + 1] == s[|s| - 1];
    forall k | 0 <= k < |cuts| ensures r[2 * k + 1] == s[cuts[k] - 1] && r[2 * k + 2] == s[cuts[k]] {
      assert r[2 * (k + 1)] == s[k + 1];
    }
  }

  /** How far the closing of gaps has come: the gaps closed so far are the smallest unless one is huge. */
  ghost predicate Closing(s: seq<int>, cuts: seq<nat>) {
    && (NoHugeGap(s) ==> Greedy(s, cuts))
    && (|cuts| < |s| - 1 ==> forall j :: 1 <= j < |s| && Gap(s, j) >= 0x8000_0000 ==> j !in cuts)
  }

  lemma {:induction false} ClosingStarts(s: seq<int>)
    requires |s| >= 1
    ensures Closing(s, AllCuts(|s|))
  {
    var cuts := AllCuts(|s|);
    forall j | 1 <= j < |s| ensures j in cuts {
      assert cuts[j - 1] == j;
    }
  }

  lemma {:induction false} CutGap(s: seq<int>, cuts: seq<nat>, r: seq<int4>, k: nat)
    requires Strict(s) && Cut(s, cuts, r) && k < |cuts|
    ensures r[2 * k + 2] as int - r[2 * k + 1] == Gap(s, cuts[k]) > 0
    ensures Diff32(r[2 * k + 2], r[2 * k + 1]) == var g := Gap(s, cuts[k]); if g >= 0x8000_0000 then g - 0x1_0000_0000 else g
  {
    assert r[2 * k + 1] == s[cuts[k] - 1] && r[2 * k + 2] == s[cuts[k]];
  }

  /** Without huge gaps the smallest 32-bit difference is the smallest gap. */
  lemma {:induction false} SmallestIsGap(s: seq<int>, cuts: seq<nat>, r: seq<int4>, k: nat, m: nat)
    requires Strict(s) && Cut(s, cuts, r) && k < |cuts| && m < |cuts| && Smallest(r, 2 * k + 2) && NoHugeGap(s)
    ensures 1 <= cuts[k] < |s| && 1 <= cuts[m] < |s| && Gap(s, cuts[k]) <= Gap(s, cuts[m])
  {
    hide Diff32, Smallest;
    CutGap(s, cuts, r, k);
    CutGap(s, cuts, r, m);
    SmallestOf(r, k, m);
  }

  lemma {:induction false} ClosingStep(s: seq<int>, cuts: seq<nat>, r: seq<int4>, k: nat)
    requires Strict(s) && Cut(s, cuts, r) && k < |cuts| && Smallest(r, 2 * k + 2) && Closing(s, cuts)
    ensures NoHugeGap(s) ==> Greedy(s, Uncut(cuts, k))
  {
    hide Smallest, Strict;
    if NoHugeGap(s) {
      var c := Uncut(cuts, k);
      forall l, j | 0 <= l < |c| && 1 <= c[l] < |s| && 1 <= j < |s| && j !in c ensures Gap(s, j) <= Gap(s, c[l]) {
        var m := if l < k then l else l + 1;
        assert c[l] == cuts[m];
        UncutElements(cuts, k, j);
        SmallestIsGap(s, cuts, r, k, m);
        assert j == cuts[k] || Gap(s, j) <= Gap(s, cuts[m]);
      }
    }
  }

  /** A huge gap wraps around and is closed first. */
  lemma {:induction false} HugeGapCloses(s: seq<int>, cuts: seq<nat>, r: seq<int4>, k: nat, j: nat)
    requires Strict(s) && Cut(s, cuts, r) && k < |cuts| && Smallest(r, 2 * k + 2) && Closing(s, cuts)
    requires 1 <= j < |s| && Gap(s, j) >= 0x8000_0000
    ensures j !in Uncut(cuts, k)
  {
    hide Smallest, Diff32, Closing, NoHugeGap;
    UncutElements(cuts, k, j);
    if j in cuts {
      var m :| 0 <= m < |cuts| && cuts[m] == j;
      CutGap(s, cuts, r, k);
      CutGap(s, cuts, r, m);
      SmallestOf(r, k, m);
      assert Gap(s, cuts[k]) >= 0x8000_0000 by {
        SpanBound(s, cuts[k], r);
        SpanBound(s, j, r);
      }
      OneHugeGap(s, j, cuts[k], r);
    }
  }

  lemma {:induction false} SmallestOf(r: seq<int4>, k: nat, m: nat)
    requires Smallest(r, 2 * k + 2) && 2 * m + 2 < |r|
    ensures Diff32(r[2 * k + 2], r[2 * k + 1]) <= Diff32(r[2 * m + 2], r[2 * m + 1])
  {
    var c, i := 2 * k + 2, 2 * m + 2;
    assert Diff32(r[c], r[c - 1]) <= Diff32(r[i], r[i - 1]);
  }

  lemma {:induction false} SpanBound(s: seq<int>, j: nat, r: seq<int4>)
    requires Strict(s) && |r| >= 2 && |s| >= 1 && r[0] == s[0] && r[|r| - 1] == s[|s| - 1] && 1 <= j < |s|
    ensures Gap(s, j) < 0x1_0000_0000
  {
    assert s[0] <= s[j - 1] && s[j] <= s[|s| - 1];
  }

  /** The elements span less than 2^32, so at most one gap is huge. */
  lemma {:induction false} OneHugeGap(s: seq<int>, i: nat, j: nat, r: seq<int4>)
    requires Strict(s) && |r| >= 2 && |s| >= 1 && r[0] == s[0] && r[|r| - 1] == s[|s| - 1]
    requires 1 <= i < |s| && 1 <= j < |s| && Gap(s, i) >= 0x8000_0000
    ensures i != j ==> Gap(s, j) < 0x8000_0000
  {
    assert s[0] <= s[i - 1] && s[i] <= s[|s| - 1];
    assert s[0] <= s[j - 1] && s[j] <= s[|s| - 1];
    if i < j {
      assert s[i] <= s[j - 1];
    } else if j < i {
      assert s[j] <= s[i - 1];
    }
  }

  lemma {:induction false} ClosingGoesOn(s: seq<int>, cuts: seq<nat>, r: seq<int4>, k: nat)
    requires Strict(s) && Cut(s, cuts, r) && k < |cuts| && Smallest(r, 2 * k + 2) && Closing(s, cuts)
    ensures Closing(s, Uncut(cuts, k))
  {
    hide Cut, Smallest, Greedy, Uncut, Closing;
    ClosingStep(s, cuts, r, k);
    forall j | 1 <= j < |s| && Gap(s, j) >= 0x8000_0000 ensures j !in Uncut(cuts, k) {
      HugeGapCloses(s, cuts, r, k, j);
    }
    ClosingFrom(s, Uncut(cuts, k));
  }

  lemma {:induction false} ClosingFrom(s: seq<int>, c: seq<nat>)
    requires NoHugeGap(s) ==> Greedy(s, c)
    requires forall j :: 1 <= j < |s| && Gap(s, j) >= 0x8000_0000 ==> j !in c
    ensures Closing(s, c)
  {
  }

  /** The closed gaps are the smallest exactly when no gap was huge. */
  lemma {:induction false} GreedyExactly(s: seq<int>, cuts: seq<nat>, r: seq<int4>)
    requires Strict(s) && Cut(s, cuts, r) && Closing(s, cuts) && 1 <= |cuts| < |s| - 1
    ensures Greedy(s, cuts) <==> NoHugeGap(s)
  {
    if !NoHugeGap(s) {
      var j :| 1 <= j < |s| && Gap(s, j) >= 0x8000_0000;
      assert j !in cuts;
      OneHugeGap(s, j, cuts[0], r);
      assert !(Gap(s, j) <= Gap(s, cuts[0]));
    }
  }

  /** A key whose largest gap is closed although smaller ones are kept, however it is compressed. */
  lemma {:induction false} HugeGapExample() returns (s: seq<int4>)
    ensures Strict(s) && |s| == 2 * MAXNUMRANGE && Gap(s, 1) == 0x8000_0000
    ensures forall j :: 2 <= j < |s| ==> Gap(s, j) == 1
    ensures forall cuts: seq<nat>, r: seq<int4> ::
      Cut(s, cuts, r) && Closing(s, cuts) && |cuts| == MAXNUMRANGE - 1 ==> 1 !in cuts && !Greedy(s, cuts)
  {
    s := [-0x8000_0000] + seq(199, i requires 0 <= i < 199 => i as int4);
    forall cuts: seq<nat>, r: seq<int4> | Cut(s, cuts, r) && Closing(s, cuts) && |cuts| == MAXNUMRANGE - 1
      ensures 1 !in cuts && !Greedy(s, cuts)
    {
      assert Gap(s, 1) >= 0x8000_0000;
      GreedyExactly(s, cuts, r);
    }
  }

  lemma {:induction false} SmallestIsCut(s: seq<int>, cuts: seq<nat>, r: seq<int4>, cand: nat)
    requires Cut(s, cuts, r) && Smallest(r, cand)
    ensures cand / 2 - 1 < |cuts| && 2 * (cand / 2 - 1) + 2 == cand && cand >= 2
  {
  }

  lemma {:induction false} CutSize(s: seq<int>, cuts: seq<nat>, r: seq<int>)
    requires Cut(s, cuts, r)
    ensures |r| == 2 * |cuts| + 2
  {
  }

  /** One turn of the loop of g_int_compress: the smallest gap is closed. */
  method CloseSmallest(dr: array<int4>, len: nat, cand0: nat, ghost s: seq<int>, ghost cuts: seq<nat>)
      returns (cand: nat, ghost cuts': seq<nat>)
    requires 8 <= len <= dr.Length && Strict(s) && Cut(s, cuts, dr[..len]) && Closing(s, cuts)
    modifies dr
    ensures Cut(s, cuts', dr[..len - 2]) && Closing(s, cuts') && |cuts'| + 1 == |cuts|
  {
    hide Cut, Closing, Strict, Smallest, RangeList;
    ghost var r := dr[..len];
    CutIsRangeList(s, cuts, r);
    CutSize(s, cuts, r);
    cand := SmallestGap(dr, len, cand0);
    SmallestIsCut(s, cuts, r, cand);
    ghost var k := cand / 2 - 1;
    JoinedCut(s, cuts, r, k);
    ClosingGoesOn(s, cuts, r, k);
    CutSize(s, Uncut(cuts, k), Joined(r, cand));
    SmallestInside(r, cand);
    CloseGap(dr, len, cand);
    cuts' := Uncut(cuts, k);
  }

  lemma {:induction false} SmallestInside(r: seq<int4>, cand: nat)
    requires Smallest(r, cand)
    ensures 1 <= cand < |r|
  {
  }

  /** The compressing part of g_int_compress. */
  method CompressRanges(s: seq<int4>) returns (r: seq<int4>, ghost cuts: seq<nat>)
    requires Strict(s) && |s| >= 2 * MAXNUMRANGE
    ensures |r| == 2 * MAXNUMRANGE && Cut(s, cuts, r) && Closing(s, cuts) && (Greedy(s, cuts) <==> NoHugeGap(s))
  {
    hide Cut, Closing, Strict, Greedy, NoHugeGap;
    var dr := Spread(s);
    var len := 2 * |s|;
    cuts := AllCuts(|s|);
    assert dr[..len] == dr[..];
    ClosingStarts(s);
    var cand := 1;
    while len > MAXNUMRANGE * 2
      invariant 2 * MAXNUMRANGE <= len <= dr.Length && len == 2 * |cuts| + 2
      invariant Cut(s, cuts, dr[..len]) && Closing(s, cuts)
    {
      cand, cuts := CloseSmallest(dr, len, cand, s, cuts);
      len := len - 2;
    }
    r := dr[..len];
    GreedyExactly(s, cuts, r);
  }

  /** Every element as a range of its own. */
  method Spread(s: seq<int4>) returns (dr: array<int4>)
    requires |s| >= 1
    ensures fresh(dr) && dr.Length == 2 * |s| && Cut(s, AllCuts(|s|), dr[..])
  {
    hide Cut;
    dr := new int4[2 * |s|](i => if 0 <= i < |s| then s[i] else 0);
    DoubleUp(dr, |s|);
    DoubledCut(s, dr[..]);
  }

  /** What an internal key is stored as. */
  ghost predicate StoredAs(key: seq<int>, r: seq<int>) {
    if |key| < 2 * MAXNUMRANGE then r == key
    else
      && |r| == 2 * MAXNUMRANGE && RangeList(r) && r[0] == key[0] && r[|r| - 1] == key[|key| - 1]
      && forall v :: v in key ==> InRanges(r, v)
  }

  /** g_int_compress for an internal key. */
  method Compress(key: seq<int4>) returns (r: seq<int4>)
    requires Strict(key)
    ensures StoredAs(key, r)
  {
    hide Cut, Strict, RangeList, InRanges, Greedy, NoHugeGap;
    if |key| < 2 * MAXNUMRANGE {
      return key;
    }
    ghost var cuts;
    r, cuts := CompressRanges(key);
    CutIsRangeList(key, cuts, r);
    AllCovered(key, cuts, r);
  }

  lemma {:induction false} AllCovered(s: seq<int>, cuts: seq<nat>, r: seq<int>)
    requires Strict(s) && Cut(s, cuts, r)
    ensures s != [] && r != [] && r[0] == s[0] && r[|r| - 1] == s[|s| - 1]
    ensures forall v :: v in s ==> InRanges(r, v)
  {
    hide Strict, InRanges;
    forall v | v in s ensures InRanges(r, v) {
      var i :| 0 <= i < |s| && s[i] == v;
      CutCovers(s, cuts, r, i);
    }
  }

  // ---- The integers in ranges ---------------------------------------------

  /** The integers from a to b. */
  function Interval(a: int, b: int): (s: seq<int>)
    ensures |s| == if a <= b then b - a + 1 else 0
  {
    if a <= b then seq(b - a + 1, i requires 0 <= i < b - a + 1 => a + i) else []
  }

  /** The integers of a list of ranges. */
  function Expand(r: seq<int>): seq<int>
    requires |r| % 2 == 0
  {
    if r == [] then [] else Expand(r[..|r| - 2]) + Interval(r[|r| - 2], r[|r| - 1])
  }

  lemma {:induction false} RangeListInit(r: seq<int>)
    requires RangeList(r) && r != []
    ensures RangeList(r[..|r| - 2])
  {
    var q := r[..|r| - 2];
    forall k | 0 <= 2 * k < |q| ensures q[2 * k] <= q[2 * k + 1] {
      assert r[2 * k] <= r[2 * k + 1];
    }
    forall k | 0 < 2 * k < |q| ensures q[2 * k - 1] < q[2 * k] {
      assert r[2 * k - 1] < r[2 * k];
    }
  }

  /** The last two elements are a range above all others. */
  lemma {:induction false} LastRange(r: seq<int>)
    requires RangeList(r) && r != []
    ensures r[|r| - 2] <= r[|r| - 1] && (|r| > 2 ==> r[|r| - 3] < r[|r| - 2])
  {
    var k := |r| / 2 - 1;
    assert r[2 * k] <= r[2 * k + 1];
    if k > 0 {
      assert r[2 * k - 1] < r[2 * k];
    }
  }

  /** Decompressing gives the integers in the ranges, ascending, each once. */
  lemma {:induction false} ExpandStrict(r: seq<int>)
    requires RangeList(r)
    ensures var e := Expand(r); Strict(e) && (r != [] ==> e != [] && e[|e| - 1] == r[|r| - 1])
  {
    if r != [] {
      var q := r[..|r| - 2];
      RangeListInit(r);
      LastRange(r);
      ExpandStrict(q);
      StrictConcat(Expand(q), Interval(r[|r| - 2], r[|r| - 1]));
    }
  }

  lemma {:induction false} StrictConcat(s: seq<int>, t: seq<int>)
    requires Strict(s) && Strict(t) && (s != [] && t != [] ==> s[|s| - 1] < t[0])
    ensures Strict(s + t)
  {
    var u := s + t;
    forall i, j | 0 <= i < j < |u| ensures u[i] < u[j] {
      if i < |s| <= j {
        assert s[i] <= s[|s| - 1] && t[0] <= t[j - |s|];
      }
    }
  }

  lemma {:induction false} IntervalHas(a: int, b: int, v: int)
    ensures v in Interval(a, b) <==> a <= v <= b
  {
    if a <= v <= b {
      assert Interval(a, b)[v - a] == v;
    }
  }

  /** The ranges are the first ones and the last. */
  lemma {:induction false} InRangesLast(r: seq<int>, v: int)
    requires |r| % 2 == 0 && r != []
    ensures InRanges(r, v) <==> InRanges(r[..|r| - 2], v) || r[|r| - 2] <= v <= r[|r| - 1]
  {
    var q, m := r[..|r| - 2], |r| / 2 - 1;
    assert 2 * m == |r| - 2;
    if InRanges(q, v) {
      var k :| 0 <= 2 * k < |q| - 1 && q[2 * k] <= v <= q[2 * k + 1];
      assert r[2 * k] <= v <= r[2 * k + 1];
    }
    if r[|r| - 2] <= v <= r[|r| - 1] {
      assert r[2 * m] <= v <= r[2 * m + 1];
    }
    if InRanges(r, v) {
      var k :| 0 <= 2 * k < |r| - 1 && r[2 * k] <= v <= r[2 * k + 1];
      if k < m {
        assert q[2 * k] <= v <= q[2 * k + 1];
      }
    }
  }

  lemma {:induction false} ExpandHas(r: seq<int>, v: int)
    requires |r| % 2 == 0
    ensures v in Expand(r) <==> InRanges(r, v)
  {
    hide Interval, InRanges;
    if r == [] {
      NoRanges(v);
    } else {
      ExpandHas(r[..|r| - 2], v);
      InRangesLast(r, v);
      IntervalHas(r[|r| - 2], r[|r| - 1], v);
    }
  }

  lemma {:induction false} NoRanges(v: int)
    ensures !InRanges([], v)
  {
  }

  lemma {:induction false} ExpandStep(r: seq<int>, i: nat)
    requires i + 2 <= |r| && i % 2 == 0
    ensures Expand(r[..i + 2]) == Expand(r[..i]) + Interval(r[i], r[i + 1])
  {
    assert r[..i + 2][..i] == r[..i];
  }

  lemma {:induction false} RangeListPrefix(r: seq<int>, i: nat)
    requires RangeList(r) && i <= |r| && i % 2 == 0
    ensures RangeList(r[..i])
    decreases |r|
  {
    if i == |r| {
      assert r[..i] == r;
    } else {
      RangeListInit(r);
      RangeListPrefix(r[..|r| - 2], i);
      assert r[..|r| - 2][..i] == r[..i];
    }
  }

  /** What is left of an integer in 32 bits. */
  function Wrap32(x: int): (w: int4)
    ensures -0x8000_0000 <= x < 0x8000_0000 ==> w == x
  {
    (x + 0x8000_0000) % 0x1_0000_0000 - 0x8000_0000
  }

  lemma {:induction false} WrapSum(x: int, y: int)
    ensures Wrap32(Wrap32(x) as int + Wrap32(y) as int) == Wrap32(x + y)
  {
    var k, l := (x + 0x8000_0000) / 0x1_0000_0000, (y + 0x8000_0000) / 0x1_0000_0000;
    assert Wrap32(x) as int == x - k * 0x1_0000_0000 && Wrap32(y) as int == y - l * 0x1_0000_0000;
    WrapShift(x + y, k + l);
  }

  lemma {:induction false} WrapShift(x: int, k: int)
    ensures Wrap32(x - k * 0x1_0000_0000) == Wrap32(x)
  {
    var q, r := (x + 0x8000_0000) / 0x1_0000_0000, (x + 0x8000_0000) % 0x1_0000_0000;
    assert x - k * 0x1_0000_0000 + 0x8000_0000 == (q - k) * 0x1_0000_0000 + r;
  }

  /** A 32-bit size is right exactly below 2^31. */
  lemma {:induction false} SizeExactly(n: nat)
    ensures Wrap32(n) as int == n <==> n < 0x8000_0000
  {
  }

  /** internal_size: how many integers the ranges hold, in 32 bits. */
  method InternalSize(a: seq<int4>) returns (size: int4)
    requires RangeList(a)
    ensures size == Wrap32(|Expand(a)|)
    ensures size as int == |Expand(a)| <==> |Expand(a)| < 0x8000_0000
  {
    hide RangeList, Expand, Wrap32;
    size := 0;
    var i := 0;
    EvenLength(a);
    ExpandNone();
    assert a[..0] == [];
    WrapNone();
    while i < |a|
      invariant 0 <= i <= |a| && i % 2 == 0 && size == Wrap32(|Expand(a[..i])|)
    {
      ExpandStep(a, i);
      RangeAt(a, i);
      if i == 0 || a[i] != a[i - 1] {
        WrapSum(|Expand(a[..i])|, a[i + 1] as int - a[i] as int + 1);
        size := Wrap32(size as int + Wrap32(a[i + 1] as int - a[i] as int + 1) as int);
      }
      i := i + 2;
    }
    assert a[..|a|] == a;
    SizeExactly(|Expand(a)|);
  }

  lemma {:induction false} WrapNone()
    ensures Wrap32(0) == 0
  {
  }

  lemma {:induction false} EvenLength(r: seq<int>)
    requires RangeList(r)
    ensures |r| % 2 == 0
  {
  }

  lemma {:induction false} ExpandNone()
    ensures Expand([]) == []
  {
  }

  lemma {:induction false} RangeAt(r: seq<int>, i: nat)
    requires RangeList(r) && i < |r| && i % 2 == 0
    ensures i + 1 < |r| && r[i] <= r[i + 1] && (i > 0 ==> r[i - 1] < r[i])
  {
    var k := i / 2;
    assert i == 2 * k;
    assert r[2 * k] <= r[2 * k + 1];
    if k > 0 {
      assert r[2 * k - 1] < r[2 * k];
    }
  }

  // ---- The loops of g_int_decompress, step by step -------------------------

  /** j++ on a 32-bit counter. */
  function Next(j: int4): int4 { Wrap32(j as int + 1) }

  /** Both loops of g_int_decompress: range i, counter j, and what has been written. */
  datatype Scan = Scan(i: nat, j: int4, dr: seq<int4>)

  /** One test of the inner loop and what it leads to: a number written, or the next range. */
  function ScanStep(r: seq<int4>, s: Scan): Scan
    requires |r| % 2 == 0 && s.i % 2 == 0 && s.i < |r|
  {
    if s.j <= r[s.i + 1] then
      Scan(s.i, Next(s.j), if s.i == 0 || s.dr == [] || s.dr[|s.dr| - 1] != s.j then s.dr + [s.j] else s.dr)
    else
      Scan(s.i + 2, if s.i + 2 < |r| then r[s.i + 2] else s.j, s.dr)
  }

  /** The state after n tests; a run that has ended stays. */
  function ScanRun(r: seq<int4>, s: Scan, n: nat): (t: Scan)
    requires |r| % 2 == 0 && s.i % 2 == 0
    ensures t.i % 2 == 0
    decreases n
  {
    if n == 0 || s.i >= |r| then s else ScanRun(r, ScanStep(r, s), n - 1)
  }

  function ScanStart(r: seq<int4>): Scan
    requires r != []
  {
    Scan(0, r[0], [])
  }

  /** The loops of g_int_decompress end on r. */
  ghost predicate Ends(r: seq<int4>)
    requires |r| % 2 == 0 && r != []
  {
    exists n: nat :: ScanRun(r, ScanStart(r), n).i >= |r|
  }

  lemma {:induction false} ScanSplit(r: seq<int4>, s: Scan, m: nat, n: nat)
    requires |r| % 2 == 0 && s.i % 2 == 0
    ensures ScanRun(r, s, m + n) == ScanRun(r, ScanRun(r, s, m), n)
    decreases m
  {
    hide ScanRun, ScanStep;
    if s.i >= |r| {
      ScanEnded(r, s, m);
      ScanEnded(r, s, n);
      ScanEnded(r, s, m + n);
    } else if m == 0 {
      ScanStays(r, s);
    } else {
      ScanOnce(r, s, m - 1);
      ScanOnce(r, s, m - 1 + n);
      ScanSplit(r, ScanStep(r, s), m - 1, n);
    }
  }

  lemma {:induction false} ScanEnded(r: seq<int4>, s: Scan, n: nat)
    requires |r| % 2 == 0 && s.i % 2 == 0 && s.i >= |r|
    ensures ScanRun(r, s, n) == s
  {
  }

  /** A range that does not end at 2^31 - 1 is written out and left. */
  lemma {:induction false} ScanRange(r: seq<int4>, i: nat, j: int4, dr: seq<int4>) returns (n: nat)
    requires |r| % 2 == 0 && i % 2 == 0 && i < |r| && r[i + 1] < 0x7fff_ffff && j as int <= r[i + 1] as int + 1
    requires i == 0 || (dr != [] && dr[|dr| - 1] < j)
    ensures var t := ScanRun(r, Scan(i, j, dr), n);
      t.i == i + 2 && t.dr == dr + Interval(j as int, r[i + 1] as int) && (i + 2 < |r| ==> t.j == r[i + 2])
    decreases r[i + 1] as int - j as int
  {
    hide Interval, ScanRun, ScanStep, Next;
    var hi := r[i + 1] as int;
    if j <= r[i + 1] {
      NumberWritten(r, i, j, dr);
      var k := ScanRange(r, i, Next(j), dr + [j]);
      n := k + 1;
      IntervalFirst(j as int, hi);
      assert (dr + [j]) + Interval(j as int + 1, hi) == dr + ([j as int] + Interval(j as int + 1, hi));
      ScanOnce(r, Scan(i, j, dr), k);
    } else {
      n := 1;
      RangeLeft(r, i, j, dr);
      ScanOnce(r, Scan(i, j, dr), 0);
      ScanStays(r, ScanStep(r, Scan(i, j, dr)));
      assert dr + [] == dr;
    }
  }

  lemma {:induction false} NumberWritten(r: seq<int4>, i: nat, j: int4, dr: seq<int4>)
    requires |r| % 2 == 0 && i % 2 == 0 && i < |r| && j <= r[i + 1] < 0x7fff_ffff
    requires i == 0 || (dr != [] && dr[|dr| - 1] < j)
    ensures ScanStep(r, Scan(i, j, dr)) == Scan(i, Next(j), dr + [j]) && Next(j) as int == j as int + 1
  {
  }

  lemma {:induction false} RangeLeft(r: seq<int4>, i: nat, j: int4, dr: seq<int4>)
    requires |r| % 2 == 0 && i % 2 == 0 && i < |r| && j > r[i + 1]
    ensures ScanStep(r, Scan(i, j, dr)) == Scan(i + 2, if i + 2 < |r| then r[i + 2] else j, dr)
    ensures Interval(j as int, r[i + 1] as int) == []
  {
  }

  lemma {:induction false} ScanOnce(r: seq<int4>, s: Scan, n: nat)
    requires |r| % 2 == 0 && s.i % 2 == 0 && s.i < |r|
    ensures ScanStep(r, s).i % 2 == 0
    ensures ScanRun(r, s, n + 1) == ScanRun(r, ScanStep(r, s), n)
  {
  }

  lemma {:induction false} ScanStays(r: seq<int4>, s: Scan)
    requires |r| % 2 == 0 && s.i % 2 == 0
    ensures ScanRun(r, s, 0) == s
  {
  }

  lemma {:induction false} IntervalFirst(a: int, b: int)
    requires a <= b
    ensures Interval(a, b) == [a] + Interval(a + 1, b)
  {
  }

  /** No range but the last can end at 2^31 - 1. */
  lemma {:induction false} InnerEnds(r: seq<int4>, i: nat)
    requires RangeList(r) && i % 2 == 0 && i < |r| && r[|r| - 1] < 0x7fff_ffff
    ensures i + 1 < |r| && r[i + 1] < 0x7fff_ffff
  {
    RangeAt(r, i);
    if i + 2 < |r| {
      RangeAt(r, i + 2);
    }
  }

  /** Range by range the loops write the expansion. */
  lemma {:induction false} ScanPrefix(r: seq<int4>, i: nat) returns (n: nat)
    requires RangeList(r) && r != [] && i % 2 == 0 && i <= |r| && r[|r| - 1] < 0x7fff_ffff
    ensures |r| % 2 == 0
    ensures var t := ScanRun(r, ScanStart(r), n); t.i == i && t.dr == Expand(r[..i]) && (i < |r| ==> t.j == r[i])
  {
    hide ScanRun, Interval, Expand, RangeList, ScanStep;
    EvenLength(r);
    if i == 0 {
      n := 0;
      ExpandNone();
      assert r[..0] == [];
      ScanNone(r);
    } else {
      var m := ScanPrefix(r, i - 2);
      var t := ScanRun(r, ScanStart(r), m);
      InnerEnds(r, i - 2);
      RangeAt(r, i - 2);
      if i > 2 {
        ExpandBelow(r, i - 2);
      }
      var k := ScanRange(r, i - 2, t.j, t.dr);
      n := m + k;
      ScanSplit(r, ScanStart(r), m, k);
      ExpandStep(r, i - 2);
    }
  }

  lemma {:induction false} ScanNone(r: seq<int4>)
    requires |r| % 2 == 0 && r != []
    ensures ScanRun(r, ScanStart(r), 0) == ScanStart(r)
  {
  }

  /** With a last range up to 2^31 - 1 the guard of the inner loop holds for every counter. */
  lemma {:induction false} NeverEnds(r: seq<int4>, s: Scan, n: nat)
    requires |r| % 2 == 0 && r != [] && r[|r| - 1] == 0x7fff_ffff && s.i % 2 == 0 && s.i < |r|
    ensures ScanRun(r, s, n).i < |r|
    decreases n
  {
    if n > 0 {
      if s.i == |r| - 2 {
        assert s.j <= r[s.i + 1];
      }
      NeverEnds(r, ScanStep(r, s), n - 1);
    }
  }

  /** The loops of g_int_decompress end exactly when the last range ends below 2^31 - 1. */
  lemma {:induction false} EndsExactly(r: seq<int4>)
    requires RangeList(r) && r != []
    ensures |r| % 2 == 0 && (Ends(r) <==> r[|r| - 1] < 0x7fff_ffff)
  {
    hide RangeList, ScanRun, Expand;
    EvenLength(r);
    if r[|r| - 1] < 0x7fff_ffff {
      var n := ScanPrefix(r, |r|);
      assert ScanRun(r, ScanStart(r), n).i >= |r|;
    } else {
      forall n: nat ensures ScanRun(r, ScanStart(r), n).i < |r| {
        NeverEnds(r, ScanStart(r), n);
      }
    }
  }

  /** When they end, they have written the expansion. */
  lemma {:induction false} EndsWithExpansion(r: seq<int4>, n: nat)
    requires RangeList(r) && r != [] && |r| % 2 == 0 && ScanRun(r, ScanStart(r), n).i >= |r|
    ensures ScanRun(r, ScanStart(r), n).dr == Expand(r)
  {
    hide RangeList, Expand;
    EndsExactly(r);
    var m := ScanPrefix(r, |r|);
    assert r[..|r|] == r;
    ScanSplit(r, ScanStart(r), n, m);
    ScanSplit(r, ScanStart(r), m, n);
  }

  /** A key whose last element is 2^31 - 1: decompressing what is stored for it never ends. */
  lemma {:induction false} EndlessKey() returns (s: seq<int4>)
    ensures Strict(s) && |s| >= 2 * MAXNUMRANGE
    ensures forall r: seq<int4> :: StoredAs(s, r) ==> |r| % 2 == 0 && r != [] && !Ends(r)
  {
    s := seq(199, i requires 0 <= i < 199 => i as int4) + [0x7fff_ffff];
    forall r: seq<int4> | StoredAs(s, r) ensures |r| % 2 == 0 && r != [] && !Ends(r) {
      EndsExactly(r);
    }
  }

  // ---- g_int_decompress ---------------------------------------------------

  /** The inner loop of g_int_decompress, behind what is already there. */
  method PutRange(dr: seq<int4>, first: bool, lo: int4, hi: int4) returns (out: seq<int4>)
    requires lo <= hi < 0x7fff_ffff && (!first ==> dr != [] && dr[|dr| - 1] < lo)
    ensures out == dr + Interval(lo as int, hi as int)
  {
    out := dr;
    var j := lo;
    while j <= hi
      invariant lo <= j && j as int <= hi as int + 1 && out == dr + Interval(lo as int, j as int - 1)
      decreases hi as int - j as int
    {
      assert j > lo ==> Interval(lo as int, j as int - 1)[j as int - 1 - lo as int] == j as int - 1;
      if first || out[|out| - 1] != j {
        out := out + [j];
      }
      assert Interval(lo as int, j as int) == Interval(lo as int, j as int - 1) + [j as int];
      j := Next(j);
    }
  }

  lemma {:induction false} ExpandBelow(r: seq<int>, i: nat)
    requires RangeList(r) && 0 < i < |r| && i % 2 == 0
    ensures var e := Expand(r[..i]); e != [] && e[|e| - 1] < r[i]
  {
    RangeListPrefix(r, i);
    ExpandStrict(r[..i]);
    RangeAt(r, i);
  }

  /** g_int_decompress: the key that is shown to the search. */
  function Shown(r: seq<int>): seq<int>
    requires |r| < 2 * MAXNUMRANGE || |r| % 2 == 0
  {
    if |r| < 2 * MAXNUMRANGE then r else Expand(r)
  }

  /** The keys g_int_decompress can show: short ones, and ranges on which its loops end and its size is right. */
  ghost predicate Decompressible(r: seq<int>) {
    |r| < 2 * MAXNUMRANGE || (RangeList(r) && r[|r| - 1] < 0x7fff_ffff && |Expand(r)| < 0x8000_0000)
  }

  /** g_int_decompress, on the ranges on which it ends; lenr is the size it gives the result. */
  method Decompress(r: seq<int4>) returns (dr: seq<int4>, lenr: int)
    requires |r| >= 2 * MAXNUMRANGE ==> RangeList(r) && r[|r| - 1] < 0x7fff_ffff
    ensures dr == Shown(r)
    ensures lenr == |dr| <==> Decompressible(r)
  {
    hide RangeList, Expand;
    if |r| < 2 * MAXNUMRANGE {
      return r, |r|;
    }
    lenr := InternalSize(r);
    dr := [];
    var i := 0;
    EvenLength(r);
    ExpandNone();
    assert r[..0] == [];
    while i < |r|
      invariant 0 <= i <= |r| && i % 2 == 0 && dr == Expand(r[..i])
    {
      ExpandStep(r, i);
      RangeAt(r, i);
      InnerEnds(r, i);
      if i > 0 {
        ExpandBelow(r, i);
      }
      dr := PutRange(dr, i == 0, r[i], r[i + 1]);
      i := i + 2;
    }
    assert r[..|r|] == r;
  }

  lemma {:induction false} ExpandSpan(r: seq<int>)
    requires RangeList(r) && r != []
    ensures |Expand(r)| <= r[|r| - 1] - r[0] + 1
  {
    LastRange(r);
    if |r| > 2 {
      RangeListInit(r);
      ExpandSpan(r[..|r| - 2]);
    } else {
      assert Expand(r[..0]) == [];
    }
  }

  /** What is stored for a key can be shown exactly when the key ends below 2^31 - 1 and the ranges hold less than 2^31. */
  lemma {:induction false} StoredDecompressible(key: seq<int>, r: seq<int>)
    requires StoredAs(key, r) && |key| >= 2 * MAXNUMRANGE
    ensures Decompressible(r) <==> key[|key| - 1] < 0x7fff_ffff && |Expand(r)| < 0x8000_0000
    ensures key[|key| - 1] < 0x7fff_ffff && key[|key| - 1] - key[0] < 0x7fff_ffff ==> Decompressible(r)
  {
    ExpandSpan(r);
  }

  /** What was stored shows every element it was stored for, in strict order. */
  lemma {:induction false} ShownCovers(key: seq<int>, r: seq<int>)
    requires Strict(key) && StoredAs(key, r)
    ensures |r| >= 2 * MAXNUMRANGE ==> RangeList(r)
    ensures |r| < 2 * MAXNUMRANGE || |r| % 2 == 0
    ensures Strict(Shown(r)) && ToSet(key) <= ToSet(Shown(r))
  {
    if |key| >= 2 * MAXNUMRANGE {
      ExpandStrict(r);
      forall v | v in key ensures v in Expand(r) {
        ExpandHas(r, v);
      }
    }
  }
}

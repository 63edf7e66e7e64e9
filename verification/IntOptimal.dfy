/** Greedy range compression is optimal: no cover by as many ranges holds fewer integers. */
module IntOptimal {
  import opened IntSets
  import opened IntRanges

  /** Cut positions of a list of n elements, ascending. */
  ghost predicate Positions(c: seq<nat>, n: nat) {
    && (forall k :: 0 <= k < |c| ==> 1 <= c[k] < n)
    && (forall k, l :: 0 <= k < l < |c| ==> c[k] < c[l])
  }

  /** The integers strictly inside the gaps at the cuts. */
  ghost function Saved(s: seq<int>, c: seq<nat>): int
    requires Positions(c, |s|)
  {
    if c == [] then 0 else Saved(s, c[..|c| - 1]) + Gap(s, c[|c| - 1]) - 1
  }

  /** The integers covered when s is cut at c. */
  ghost function Size(s: seq<int>, c: seq<nat>): int
    requires s != [] && Positions(c, |s|)
  {
    s[|s| - 1] - s[0] + 1 - Saved(s, c)
  }

  lemma {:induction false} SavedPrefix(s: seq<int>, p: nat, c: seq<nat>)
    requires p <= |s| && Positions(c, p)
    ensures Saved(s[..p], c) == Saved(s, c)
  {
    if c != [] {
      SavedPrefix(s, p, c[..|c| - 1]);
    }
  }

  /** A last cut at p splits off the elements from p on. */
  lemma {:induction false} SizeSplit(s: seq<int>, c: seq<nat>, p: nat)
    requires 1 <= p < |s| && Positions(c, p)
    ensures Positions(c + [p], |s|) && Size(s, c + [p]) == Size(s[..p], c) + (s[|s| - 1] - s[p] + 1)
  {
    assert (c + [p])[..|c|] == c;
    SavedPrefix(s, p, c);
  }

  lemma {:induction false} ExpandSnoc(r: seq<int>)
    requires RangeList(r) && r != []
    ensures |Expand(r)| == |Expand(r[..|r| - 2])| + (r[|r| - 1] - r[|r| - 2] + 1)
  {
    LastRange(r);
  }

  /** What a list of ranges from cuts holds. */
  lemma {:induction false} CutSizeIs(s: seq<int>, cuts: seq<nat>, r: seq<int>)
    requires Strict(s) && Cut(s, cuts, r)
    ensures |Expand(r)| == Size(s, cuts)
    decreases |cuts|
  {
    hide Cut, Expand, Size, Positions;
    CutIsRangeList(s, cuts, r);
    CutParts(s, cuts, r);
    ExpandSnoc(r);
    if cuts == [] {
      OneRange(s, r);
    } else {
      var m := |cuts| - 1;
      var p, c, r' := cuts[m], cuts[..m], r[..|r| - 2];
      CutPrefix(s, cuts, r);
      StrictPrefix(s, p);
      CutSizeIs(s[..p], c, r');
      CutParts(s[..p], c, r');
      SizeSplit(s, c, p);
      assert c + [p] == cuts;
    }
  }

  lemma {:induction false} StrictPrefix(s: seq<int>, p: nat)
    requires Strict(s) && p <= |s|
    ensures Strict(s[..p])
  {
  }

  lemma {:induction false} OneRange(s: seq<int>, r: seq<int>)
    requires Cut(s, [], r)
    ensures Positions([], |s|) && Size(s, []) == r[1] - r[0] + 1 && |Expand(r[..|r| - 2])| == 0
  {
  }

  lemma {:induction false} CutParts(s: seq<int>, cuts: seq<nat>, r: seq<int>)
    requires Cut(s, cuts, r)
    ensures |s| >= 1 && |r| == 2 * |cuts| + 2 && r[|r| - 1] == s[|s| - 1] && Positions(cuts, |s|)
    ensures cuts != [] ==> var p := cuts[|cuts| - 1]; 1 <= p < |s| && r[|r| - 2] == s[p] && Positions(cuts[..|cuts| - 1], p)
  {
    if cuts != [] {
      var m := |cuts| - 1;
      assert r[2 * m + 2] == s[cuts[m]];
    }
  }

  lemma {:induction false} CutPrefix(s: seq<int>, cuts: seq<nat>, r: seq<int>)
    requires Cut(s, cuts, r) && cuts != []
    ensures Cut(s[..cuts[|cuts| - 1]], cuts[..|cuts| - 1], r[..|r| - 2])
  {
    var m := |cuts| - 1;
    var p, c, r' := cuts[m], cuts[..m], r[..|r| - 2];
    assert r[2 * m + 1] == s[p - 1];
    forall k | 0 <= k < |c| ensures r'[2 * k + 1] == s[..p][c[k] - 1] && r'[2 * k + 2] == s[..p][c[k]] {
      assert r[2 * k + 1] == s[cuts[k] - 1] && r[2 * k + 2] == s[cuts[k]];
    }
  }

  // ---- Any cover is a cutting ---------------------------------------------

  /** The first element not below a. */
  ghost function FirstFrom(s: seq<int>, a: int): (p: nat)
    requires Strict(s)
    ensures p <= |s| && (forall i :: 0 <= i < p ==> s[i] < a) && (forall i :: p <= i < |s| ==> a <= s[i])
  {
    if s == [] then 0
    else if s[|s| - 1] < a then |s|
    else FirstFrom(s[..|s| - 1], a)
  }

  ghost predicate Covers(q: seq<int>, s: seq<int>) {
    forall i :: 0 <= i < |s| ==> InRanges(q, s[i])
  }

  lemma {:induction false} RangesBelow(q: seq<int>, v: int)
    requires RangeList(q) && q != [] && InRanges(q, v)
    ensures v <= q[|q| - 1]
    ensures v < q[|q| - 2] <==> InRanges(q[..|q| - 2], v)
  {
    InRangesLast(q, v);
    LastRange(q);
    if InRanges(q[..|q| - 2], v) {
      RangeListInit(q);
      RangesBelow(q[..|q| - 2], v);
    }
  }

  lemma {:induction false} PrefixCovered(q: seq<int>, s: seq<int>, p: nat)
    requires RangeList(q) && q != [] && Covers(q, s) && p <= |s| && forall i :: 0 <= i < p ==> s[i] < q[|q| - 2]
    ensures Covers(q[..|q| - 2], s[..p])
  {
    forall i | 0 <= i < p ensures InRanges(q[..|q| - 2], s[..p][i]) {
      RangesBelow(q, s[i]);
    }
  }

  /** A cover by ranges is no smaller than some cutting into as many pieces. */
  lemma {:induction false} CoverIsCutting(q: seq<int>, s: seq<int>) returns (c: seq<nat>)
    requires RangeList(q) && Strict(s) && s != [] && Covers(q, s)
    ensures Positions(c, |s|) && 2 * |c| + 2 <= |q| && Size(s, c) <= |Expand(q)|
    decreases |q|
  {
    assert InRanges(q, s[0]);
    assert q != [];
    var a, b, q' := q[|q| - 2], q[|q| - 1], q[..|q| - 2];
    ExpandSnoc(q);
    RangeListInit(q);
    var p := FirstFrom(s, a);
    PrefixCovered(q, s, p);
    RangesBelow(q, s[|s| - 1]);
    if p == 0 {
      c := [];
    } else {
      var c' := CoverIsCutting(q', s[..p]);
      if p == |s| {
        assert s[..p] == s;
        c := c';
        LastRange(q);
      } else {
        SizeSplit(s, c', p);
        c := c' + [p];
      }
    }
  }

  // ---- The exchange -------------------------------------------------------

  lemma {:induction false} UncutPositions(c: seq<nat>, n: nat, k: nat)
    requires Positions(c, n) && k < |c|
    ensures Positions(Uncut(c, k), n)
  {
  }

  lemma {:induction false} UncutSaved(s: seq<int>, c: seq<nat>, k: nat)
    requires Positions(c, |s|) && k < |c|
    ensures Positions(Uncut(c, k), |s|) && 1 <= c[k] < |s| && Saved(s, Uncut(c, k)) == Saved(s, c) - (Gap(s, c[k]) - 1)
    decreases |c|
  {
    hide Positions;
    UncutPositions(c, |s|, k);
    InitPositions(c, |s|);
    var last := |c| - 1;
    var u := Uncut(c, k);
    if k == last {
      UncutLast(c);
    } else {
      InitPositions(u, |s|);
      UncutSaved(s, c[..last], k);
      UncutInner(c, k);
    }
  }

  lemma {:induction false} InitPositions(c: seq<nat>, n: nat)
    requires Positions(c, n) && c != []
    ensures Positions(c[..|c| - 1], n) && 1 <= c[|c| - 1] < n
  {
  }

  lemma {:induction false} UncutLast(c: seq<nat>)
    requires c != []
    ensures Uncut(c, |c| - 1) == c[..|c| - 1]
  {
  }

  lemma {:induction false} UncutInner(c: seq<nat>, k: nat)
    requires k < |c| - 1
    ensures var u := Uncut(c, k); |u| == |c| - 1 && u[..|u| - 1] == Uncut(c[..|c| - 1], k) && u[|u| - 1] == c[|c| - 1]
  {
  }

  /** Whatever c cuts that K does not is a smaller gap. */
  ghost predicate Dominates(s: seq<int>, K: seq<nat>, c: seq<nat>) {
    && Positions(K, |s|) && Positions(c, |s|)
    && forall i, k :: 0 <= i < |c| && 0 <= k < |K| && c[i] !in K ==> Gap(s, c[i]) <= Gap(s, K[k])
  }

  ghost function Elements(c: seq<nat>): set<nat> { set x | x in c }

  lemma {:induction false} ElementsSnoc(t: seq<nat>, x: nat)
    ensures Elements(t + [x]) == Elements(t) + {x}
  {
  }

  lemma {:induction false} SizeOfPositions(c: seq<nat>, n: nat)
    requires Positions(c, n)
    ensures |Elements(c)| == |c|
  {
    if c != [] {
      var t, x := c[..|c| - 1], c[|c| - 1];
      SizeOfPositions(t, n);
      assert c == t + [x];
      ElementsSnoc(t, x);
      assert x !in Elements(t);
    }
  }

  /** As many cuts, one of them not in c, leave one cut outside c. */
  lemma {:induction false} SomeOther(K: seq<nat>, c: seq<nat>, n: nat, x: nat) returns (k: nat)
    requires Positions(K, n) && Positions(c, n) && |c| <= |K| && x in c && x !in K
    ensures k < |K| && K[k] !in c
  {
    SizeOfPositions(K, n);
    SizeOfPositions(c, n);
    var A, B := Elements(K), Elements(c);
    assert x in B && |B - {x}| == |B| - 1;
    if A <= B - {x} {
      CardinalityMono(A, B - {x});
      assert false;
    }
    var y :| y in A && y !in B - {x};
    k :| 0 <= k < |K| && K[k] == y;
  }

  lemma {:induction false} CardinalityMono(A: set<nat>, B: set<nat>)
    requires A <= B
    ensures |A| <= |B|
  {
    assert B == A + (B - A);
  }

  lemma {:induction false} UncutDominates(s: seq<int>, K: seq<nat>, c: seq<nat>, k: nat, i: nat)
    requires Dominates(s, K, c) && i < |c| && k < |K| && (K[k] == c[i] || K[k] !in c)
    ensures Dominates(s, Uncut(K, k), Uncut(c, i))
  {
    var K', c' := Uncut(K, k), Uncut(c, i);
    UncutPositions(K, |s|, k);
    UncutPositions(c, |s|, i);
    forall p, q | 0 <= p < |c'| && 0 <= q < |K'| && c'[p] !in K' ensures Gap(s, c'[p]) <= Gap(s, K'[q]) {
      UncutElements(c, i, c'[p]);
      UncutElements(K, k, c'[p]);
      UncutElements(K, k, K'[q]);
      var i' :| 0 <= i' < |c| && c[i'] == c'[p];
      var k' :| 0 <= k' < |K| && K[k'] == K'[q];
      assert c[i'] !in K;
    }
  }

  /** Keeping larger gaps saves at least as much. */
  lemma {:induction false} GreedySavesMost(s: seq<int>, K: seq<nat>, c: seq<nat>)
    requires Strict(s) && Dominates(s, K, c) && |c| <= |K|
    ensures Saved(s, c) <= Saved(s, K)
    decreases |c|
  {
    if c == [] {
      SavedNonneg(s, K);
    } else {
      var i := |c| - 1;
      var k: nat;
      if c[i] in K {
        k :| 0 <= k < |K| && K[k] == c[i];
      } else {
        k := SomeOther(K, c, |s|, c[i]);
      }
      UncutDominates(s, K, c, k, i);
      UncutSaved(s, K, k);
      UncutSaved(s, c, i);
      GreedySavesMost(s, Uncut(K, k), Uncut(c, i));
    }
  }

  lemma {:induction false} SavedNonneg(s: seq<int>, K: seq<nat>)
    requires Strict(s) && Positions(K, |s|)
    ensures Saved(s, K) >= 0
  {
    if K != [] {
      SavedNonneg(s, K[..|K| - 1]);
    }
  }

  /** No cover of the key by as many ranges holds fewer integers than the compressed key. */
  lemma {:induction false} GreedyIsOptimal(s: seq<int>, cuts: seq<nat>, r: seq<int>, q: seq<int>)
    requires Strict(s) && Cut(s, cuts, r) && Greedy(s, cuts)
    requires RangeList(q) && |q| <= |r| && Covers(q, s)
    ensures |Expand(r)| <= |Expand(q)|
  {
    var c := CoverIsCutting(q, s);
    CutSizeIs(s, cuts, r);
    GreedySavesMost(s, cuts, c);
  }
}

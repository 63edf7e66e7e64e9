/** Integer arrays as sets: bubble sort, duplicates, and the merge loops on sorted arrays. */
module IntSets {

  ghost predicate Sorted(s: seq<int>) {
    forall i, j :: 0 <= i < j < |s| ==> s[i] <= s[j]
  }

  /** Ascending without duplicates. */
  ghost predicate Strict(s: seq<int>) {
    forall i, j :: 0 <= i < j < |s| ==> s[i] < s[j]
  }

  ghost function ToSet(s: seq<int>): set<int> { set x | x in s }

  lemma {:induction false} Member(S: set<int>) returns (x: int)
    requires S != {}
    ensures x in S
  {
    assert (forall y :: y !in S) ==> S == {};
    x :| x in S;
  }

  ghost predicate HasDuplicate(s: seq<int>) {
    exists i, j :: 0 <= i < j < |s| && s[i] == s[j]
  }

  // ---- isort --------------------------------------------------------------

  /** The last k elements are in their places. */
  ghost predicate Settled(s: seq<int>, k: nat) {
    forall i, j :: 0 <= i < j < |s| && |s| - k <= j ==> s[i] <= s[j]
  }

  lemma {:induction false} CountSplit(s: seq<int>, i: nat)
    requires i < |s|
    ensures multiset(s) == multiset(s[..i]) + multiset(s[i + 1..]) + multiset{s[i]}
  {
    assert s == s[..i] + [s[i]] + s[i + 1..];
  }

  lemma {:induction false} TwiceCounted(s: seq<int>, i: nat, j: nat)
    requires 0 <= i < j < |s| && s[i] == s[j]
    ensures multiset(s)[s[j]] >= 2
  {
    CountSplit(s, j);
    assert s[..j][i] == s[j];
    assert s[j] in multiset(s[..j]);
  }

  lemma {:induction false} CountedTwice(s: seq<int>, i: nat)
    requires i < |s| && multiset(s)[s[i]] >= 2
    ensures HasDuplicate(s)
  {
    CountSplit(s, i);
    var x := s[i];
    if x in multiset(s[..i]) {
      var j :| 0 <= j < i && s[..i][j] == x;
      assert s[j] == s[i];
    } else {
      assert x in multiset(s[i + 1..]);
      var j :| 0 <= j < |s[i + 1..]| && s[i + 1..][j] == x;
      assert s[i] == s[i + 1 + j];
    }
  }

  lemma {:induction false} DuplicatesCounted(s: seq<int>)
    ensures HasDuplicate(s) <==> exists x :: x in s && multiset(s)[x] >= 2
  {
    if HasDuplicate(s) {
      var i, j :| 0 <= i < j < |s| && s[i] == s[j];
      TwiceCounted(s, i, j);
      assert s[j] in s;
    }
    if x :| x in s && multiset(s)[x] >= 2 {
      var i :| 0 <= i < |s| && s[i] == x;
      CountedTwice(s, i);
    }
  }

  /** Rearranging does not make or remove duplicates. */
  lemma {:induction false} SameDuplicates(s: seq<int>, t: seq<int>)
    requires multiset(s) == multiset(t)
    ensures HasDuplicate(s) <==> HasDuplicate(t)
  {
    DuplicatesCounted(s);
    DuplicatesCounted(t);
    forall x ensures x in s <==> x in t {
      assert x in multiset(s) <==> x in multiset(t);
    }
  }

  ghost predicate Neighbours(s: seq<int>, n: nat) {
    forall i :: 0 < i < n && i < |s| ==> s[i - 1] <= s[i]
  }

  lemma {:induction false} NeighboursSorted(s: seq<int>, n: nat)
    requires Neighbours(s, n) && n <= |s|
    ensures Sorted(s[..n])
  {
    if n > 0 {
      NeighboursSorted(s, n - 1);
      forall i, j | 0 <= i < j < n ensures s[i] <= s[j] {
        if j == n - 1 {
          assert s[j - 1] <= s[j];
          if i < j - 1 {
            assert s[..n - 1][i] <= s[..n - 1][j - 1];
          }
        } else {
          assert s[..n - 1][i] <= s[..n - 1][j];
        }
      }
    }
  }

  /** Inside a pass: the largest of the unsettled elements before cur is just before cur, or in its place. */
  ghost predicate Bubbling(s: seq<int>, k: nat, cur: nat) {
    && Settled(s, k)
    && forall i, m :: 0 <= i < m && m == (if cur <= |s| - k then cur else |s| - k) - 1 ==> s[i] <= s[m]
  }

  function Exchange(s: seq<int>, c: nat): seq<int>
    requires 1 <= c < |s|
  {
    s[c - 1 := s[c]][c := s[c - 1]]
  }

  lemma {:induction false} BubbleStep(s: seq<int>, k: nat, cur: nat)
    requires 1 <= cur < |s| && Bubbling(s, k, cur)
    ensures s[cur - 1] <= s[cur] ==> Bubbling(s, k, cur + 1)
    ensures s[cur - 1] > s[cur] ==> Bubbling(Exchange(s, cur), k, cur + 1) && k + 1 < |s|
  {
  }

  lemma {:induction false} BubbleEnd(s: seq<int>, k: nat, cur: nat)
    requires Bubbling(s, k, cur) && cur >= |s|
    ensures Settled(s, k + 1)
  {
  }

  lemma {:induction false} BubbleBegin(s: seq<int>, k: nat)
    requires Settled(s, k)
    ensures Bubbling(s, k, 1)
  {
  }

  /** The neighbours before cur are in order, and unequal unless r. */
  ghost predicate Calm(s: seq<int>, r: bool, cur: nat) {
    Neighbours(s, cur) && (r || forall i :: 0 < i < cur && i < |s| ==> s[i - 1] != s[i])
  }

  lemma {:induction false} CalmStep(s: seq<int>, r: bool, cur: nat)
    requires 1 <= cur < |s| && Calm(s, r, cur) && s[cur - 1] <= s[cur]
    ensures Calm(s, r || s[cur - 1] == s[cur], cur + 1)
  {
  }

  lemma {:induction false} EqualNeighbours(s: seq<int>, cur: nat)
    requires 1 <= cur < |s| && s[cur - 1] == s[cur]
    ensures HasDuplicate(s)
  {
  }

  lemma {:induction false} CalmEnd(s: seq<int>, r: bool, cur: nat)
    requires Calm(s, r, cur) && cur >= |s|
    ensures Sorted(s) && (HasDuplicate(s) ==> r)
  {
    NeighboursSorted(s, |s|);
    assert s[..|s|] == s;
    NoneEqual(s, r);
  }

  lemma {:induction false} CalmBegin(s: seq<int>, r: bool)
    ensures Calm(s, r, 1)
  {
  }

  /** One pass: the largest of the unsettled elements moves up to its place. */
  method Pass(a: array<int>, r: bool, ghost k: nat) returns (swapped: bool, r': bool)
    requires Settled(a[..], k) && (r ==> HasDuplicate(a[..]))
    modifies a
    ensures multiset(a[..]) == multiset(old(a[..])) && Settled(a[..], k + 1)
    ensures r' ==> HasDuplicate(a[..])
    ensures !swapped ==> Sorted(a[..]) && (HasDuplicate(a[..]) ==> r')
    ensures swapped ==> k + 1 < a.Length
  {
    hide Settled, HasDuplicate, Bubbling, Calm, Sorted;
    ghost var D := a[..];
    swapped, r' := false, r;
    var cur := 1;
    BubbleBegin(D, k);
    CalmBegin(D, r);
    while cur < a.Length
      invariant 1 <= cur && multiset(a[..]) == multiset(D) && Bubbling(a[..], k, cur)
      invariant r' ==> HasDuplicate(D)
      invariant !swapped ==> Calm(a[..], r', cur)
      invariant swapped ==> k + 1 < a.Length
    {
      ghost var s := a[..];
      BubbleStep(s, k, cur);
      if a[cur - 1] > a[cur] {
        a[cur - 1], a[cur] := a[cur], a[cur - 1];
        assert a[..] == Exchange(s, cur);
        Swapped(s, a[..], cur);
        swapped := true;
      } else {
        if !swapped {
          CalmStep(s, r', cur);
        }
        if !r' && a[cur - 1] == a[cur] {
          EqualNeighbours(s, cur);
          SameDuplicates(s, D);
          r' := true;
        }
      }
      cur := cur + 1;
    }
    BubbleEnd(a[..], k, cur);
    SameDuplicates(a[..], D);
    if !swapped {
      CalmEnd(a[..], r', cur);
    }
  }

  lemma {:induction false} NoneEqual(s: seq<int>, r: bool)
    requires Sorted(s) && (r || forall i :: 0 < i < |s| ==> s[i - 1] != s[i])
    ensures HasDuplicate(s) ==> r
  {
    if HasDuplicate(s) {
      var i, j :| 0 <= i < j < |s| && s[i] == s[j];
      assert s[j - 1] == s[j];
    }
  }

  lemma {:induction false} Swapped(s: seq<int>, t: seq<int>, c: nat)
    requires 1 <= c < |s| == |t| && t == s[c - 1 := s[c]][c := s[c - 1]]
    ensures multiset(t) == multiset(s)
  {
    assert s == s[..c - 1] + [s[c - 1]] + [s[c]] + s[c + 1..];
    assert t == s[..c - 1] + [s[c]] + [s[c - 1]] + s[c + 1..];
  }

  /** isort: sorts in place and tells whether there are duplicates. */
  method Isort(a: array<int>) returns (r: bool)
    modifies a
    ensures Sorted(a[..]) && multiset(a[..]) == multiset(old(a[..]))
    ensures r <==> HasDuplicate(a[..])
  {
    hide HasDuplicate, Sorted, Settled;
    r := false;
    ghost var k: nat := 0;
    SettledNone(a[..]);
    while true
      invariant multiset(a[..]) == multiset(old(a[..])) && Settled(a[..], k) && (r ==> HasDuplicate(a[..]))
      decreases a.Length + 1 - k
    {
      var index;
      index, r := Pass(a, r, k);
      k := k + 1;
      if !index {
        break;
      }
    }
  }

  lemma {:induction false} SettledNone(s: seq<int>)
    ensures Settled(s, 0)
  {
  }

  // ---- _int_unique --------------------------------------------------------

  /** The distinct elements of a sorted list. */
  function Distinct(s: seq<int>): (u: seq<int>)
    ensures s != [] ==> u != [] && |u| <= |s| && u[|u| - 1] == s[|s| - 1]
  {
    if |s| <= 1 then s
    else
      var u := Distinct(s[..|s| - 1]);
      if s[|s| - 1] == u[|u| - 1] then u else u + [s[|s| - 1]]
  }

  lemma {:induction false} DistinctStep(s: seq<int>, n: nat)
    requires 1 <= n < |s|
    ensures var u := Distinct(s[..n]);
      Distinct(s[..n + 1]) == if s[n] == u[|u| - 1] then u else u + [s[n]]
  {
    assert s[..n + 1][..n] == s[..n];
  }

  lemma {:induction false} StrictSnoc(u: seq<int>, x: int)
    requires Strict(u) && u != [] && u[|u| - 1] < x
    ensures Strict(u + [x])
  {
  }

  lemma {:induction false} LastIn(u: seq<int>)
    requires u != []
    ensures ToSet(u) + {u[|u| - 1]} == ToSet(u)
  {
    assert u[|u| - 1] in u;
  }

  lemma {:induction false} SortedInit(s: seq<int>)
    requires Sorted(s) && |s| > 1
    ensures Sorted(s[..|s| - 1]) && s[|s| - 2] <= s[|s| - 1] && s == s[..|s| - 1] + [s[|s| - 1]]
  {
  }

  lemma {:induction false} DistinctStrict(s: seq<int>)
    requires Sorted(s)
    ensures Strict(Distinct(s)) && ToSet(Distinct(s)) == ToSet(s)
  {
    hide ToSet, Strict, Sorted;
    if |s| <= 1 {
      AtMostOne(s);
    } else {
      var t, x := s[..|s| - 1], s[|s| - 1];
      SortedInit(s);
      DistinctStrict(t);
      var u := Distinct(t);
      ToSetSnoc(t, x);
      LastIn(u);
      if x != u[|u| - 1] {
        StrictSnoc(u, x);
        ToSetSnoc(u, x);
      }
    }
  }

  lemma {:induction false} DistinctShort(s: seq<int>)
    requires |s| <= 1
    ensures Distinct(s) == s
  {
  }

  /** _int_unique: moves the distinct elements to the front and returns their number. */
  method Unique(a: array<int>) returns (n: nat)
    modifies a
    ensures n <= a.Length && a[..n] == Distinct(old(a[..]))
  {
    hide Distinct;
    ghost var s := a[..];
    var num := a.Length;
    if num < 2 {
      DistinctShort(s);
      assert a[..num] == a[..];
      return num;
    }
    var tmp, dr := 1, 0;
    DistinctShort(s[..1]);
    while tmp < num
      invariant 0 <= dr < tmp <= num
      invariant a[tmp..] == s[tmp..]
      invariant a[..dr + 1] == Distinct(s[..tmp])
    {
      ghost var u, tail := a[..dr + 1], a[tmp..];
      DistinctStep(s, tmp);
      NextOf(s, a[..], tmp, dr);
      if a[tmp] != a[dr] {
        dr := dr + 1;
        a[dr] := a[tmp];
        assert a[..dr + 1] == u + [s[tmp]];
        assert a[tmp + 1..] == tail[1..];
      }
      tmp := tmp + 1;
    }
    assert s[..num] == s;
    n := dr + 1;
  }

  lemma {:induction false} NextOf(s: seq<int>, t: seq<int>, tmp: nat, dr: nat)
    requires |s| == |t| && dr < tmp < |s| && t[tmp..] == s[tmp..]
    ensures t[tmp] == s[tmp] && t[..dr + 1][dr] == t[dr] && |t[..dr + 1]| == dr + 1
    ensures t[tmp + 1..] == s[tmp + 1..] && t[tmp..][1..] == s[tmp + 1..]
  {
    assert t[tmp] == t[tmp..][0] && s[tmp] == s[tmp..][0];
    assert t[tmp + 1..] == t[tmp..][1..] && s[tmp + 1..] == s[tmp..][1..];
  }

  lemma {:induction false} SameElements(s: seq<int>, t: seq<int>)
    requires multiset(s) == multiset(t)
    ensures ToSet(s) == ToSet(t)
  {
    forall x ensures x in s <==> x in t {
      assert x in multiset(s) <==> x in multiset(t);
    }
  }

  lemma {:induction false} StrictIfNoDuplicate(s: seq<int>)
    requires Sorted(s) && !HasDuplicate(s)
    ensures Strict(s)
  {
  }

  /** PREPAREARR: the sorted distinct elements of an array. */
  method Prepare(s: seq<int>) returns (r: seq<int>)
    ensures Strict(r) && ToSet(r) == ToSet(s)
  {
    hide Strict, Sorted, HasDuplicate, ToSet, Distinct;
    if |s| <= 1 {
      AtMostOne(s);
      return s;
    }
    var a := new int[|s|](i requires 0 <= i < |s| => s[i]);
    assert a[..] == s;
    var dup := Isort(a);
    SameElements(a[..], s);
    if dup {
      DistinctStrict(a[..]);
      var n := Unique(a);
      r := a[..n];
    } else {
      StrictIfNoDuplicate(a[..]);
      r := a[..];
    }
  }

  lemma {:induction false} AtMostOne(s: seq<int>)
    requires |s| <= 1
    ensures Strict(s)
  {
  }

  // ---- The merge loops ----------------------------------------------------

  /** inner_int_contains, on sorted distinct elements. */
  method Contains(a: seq<int>, b: seq<int>) returns (res: bool)
    requires Strict(a) && Strict(b)
    ensures res <==> a != [] && b != [] && ToSet(b) <= ToSet(a)
  {
    if a == [] || b == [] {
      return false;
    }
    var i, j, n := 0, 0, 0;
    while i < |a| && j < |b|
      invariant 0 <= i <= |a| && 0 <= j <= |b| && n == j
      invariant forall q :: 0 <= q < j ==> b[q] in a
      invariant forall p, q :: 0 <= p < i && j <= q < |b| ==> a[p] < b[q]
    {
      if a[i] < b[j] {
        i := i + 1;
      } else if a[i] == b[j] {
        n := n + 1;
        i := i + 1;
        j := j + 1;
      } else {
        break;
      }
    }
    res := n == |b|;
    if res {
      assert ToSet(b) <= ToSet(a);
    } else {
      assert b[j] !in a && b[j] in ToSet(b);
    }
  }

  /** inner_int_overlap, on sorted elements. */
  method Overlap(a: seq<int>, b: seq<int>) returns (res: bool)
    requires Sorted(a) && Sorted(b)
    ensures res <==> exists x :: x in a && x in b
  {
    if a == [] || b == [] {
      return false;
    }
    var i, j := 0, 0;
    while i < |a| && j < |b|
      invariant 0 <= i <= |a| && 0 <= j <= |b|
      invariant forall p :: 0 <= p < i ==> a[p] !in b
      invariant forall q :: 0 <= q < j ==> b[q] !in a
    {
      if a[i] < b[j] {
        i := i + 1;
      } else if a[i] == b[j] {
        assert a[i] in a && a[i] in b;
        return true;
      } else {
        j := j + 1;
      }
    }
    return false;
  }

  /** Where a merge stands: dr is sorted, below what is left, and holds what was taken. */
  ghost predicate Merged(a: seq<int>, b: seq<int>, i: nat, j: nat, dr: seq<int>) {
    && i <= |a| && j <= |b| && Sorted(dr) && ToSet(dr) == ToSet(a[..i]) + ToSet(b[..j])
    && (forall k, p :: 0 <= k < |dr| && i <= p < |a| ==> dr[k] <= a[p])
    && (forall k, q :: 0 <= k < |dr| && j <= q < |b| ==> dr[k] <= b[q])
  }

  lemma {:induction false} MergedSnoc(s: seq<int>, i: nat)
    requires i < |s|
    ensures ToSet(s[..i + 1]) == ToSet(s[..i]) + {s[i]}
  {
    assert s[..i + 1] == s[..i] + [s[i]];
  }

  lemma {:induction false} ToSetSnoc(s: seq<int>, x: int)
    ensures ToSet(s + [x]) == ToSet(s) + {x}
  {
  }

  lemma {:induction false} MergeStep(a: seq<int>, b: seq<int>, i: nat, j: nat, dr: seq<int>)
    requires Sorted(a) && Sorted(b) && Merged(a, b, i, j, dr)
    ensures i < |a| && (j < |b| ==> a[i] <= b[j]) ==> Merged(a, b, i + 1, j, dr + [a[i]])
    ensures j < |b| && (i < |a| ==> b[j] <= a[i]) ==> Merged(a, b, i, j + 1, dr + [b[j]])
    ensures i < |a| && j < |b| && a[i] == b[j] ==> Merged(a, b, i + 1, j + 1, dr + [a[i]])
  {
    hide ToSet;
    if i < |a| {
      MergedSnoc(a, i);
      ToSetSnoc(dr, a[i]);
    }
    if j < |b| {
      MergedSnoc(b, j);
      ToSetSnoc(dr, b[j]);
    }
  }

  lemma {:induction false} MergeEnds(a: seq<int>, b: seq<int>)
    ensures Merged(a, b, 0, 0, [])
    ensures a[..|a|] == a && b[..|b|] == b
  {
  }

  /** inner_int_union: the sorted distinct elements of both. */
  method Union(a: seq<int>, b: seq<int>) returns (r: seq<int>)
    requires Sorted(a) && Sorted(b)
    ensures Strict(r) && ToSet(r) == ToSet(a) + ToSet(b)
  {
    if a == [] && b == [] {
      return [];
    }
    if a == [] {
      r := b;
    } else if b == [] {
      r := a;
    } else {
      r := MergeAll(a, b);
    }
    if |r| > 1 {
      var d := new int[|r|](i requires 0 <= i < |r| => r[i]);
      assert d[..] == r;
      DistinctStrict(r);
      var n := Unique(d);
      r := d[..n];
    }
  }

  /** The loops of inner_int_union. */
  method MergeAll(a: seq<int>, b: seq<int>) returns (dr: seq<int>)
    requires Sorted(a) && Sorted(b)
    ensures Sorted(dr) && ToSet(dr) == ToSet(a) + ToSet(b)
  {
    hide Sorted, ToSet, Merged;
    dr := [];
    var i, j := 0, 0;
    MergeEnds(a, b);
    while i < |a| && j < |b|
      invariant 0 <= i <= |a| && 0 <= j <= |b| && Merged(a, b, i, j, dr)
      decreases |a| + |b| - i - j
    {
      MergeStep(a, b, i, j, dr);
      if a[i] == b[j] {
        dr := dr + [a[i]];
        i := i + 1;
        j := j + 1;
      } else if a[i] < b[j] {
        dr := dr + [a[i]];
        i := i + 1;
      } else {
        dr := dr + [b[j]];
        j := j + 1;
      }
    }
    while i < |a|
      invariant 0 <= i <= |a| && 0 <= j <= |b| && Merged(a, b, i, j, dr) && (i < |a| ==> j == |b|)
    {
      MergeStep(a, b, i, j, dr);
      dr := dr + [a[i]];
      i := i + 1;
    }
    while j < |b|
      invariant 0 <= j <= |b| && i == |a| && Merged(a, b, i, j, dr)
    {
      MergeStep(a, b, i, j, dr);
      dr := dr + [b[j]];
      j := j + 1;
    }
    MergeDone(a, b, dr);
  }

  lemma {:induction false} MergeDone(a: seq<int>, b: seq<int>, dr: seq<int>)
    requires Merged(a, b, |a|, |b|, dr)
    ensures Sorted(dr) && ToSet(dr) == ToSet(a) + ToSet(b)
  {
    MergeEnds(a, b);
  }
}

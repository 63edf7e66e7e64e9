/** inner_int_inter: the common elements of two sorted arrays, as the array is laid out in memory. */
module IntInter {
  import opened IntSets

  /** The lower bound of a new array, the word in front of its first element. */
  const LBOUND := 1

  /** 1 is the least common element, and one of the arrays has a lesser one. */
  ghost predicate Lost(A: set<int>, B: set<int>) {
    1 in A * B && (forall v :: v in A * B ==> v >= 1) && exists v :: v in A + B && v < 1
  }

  /** The common elements, less the one that is taken for a duplicate of the lower bound. */
  ghost function Common(A: set<int>, B: set<int>): set<int> {
    A * B - if Lost(A, B) then {1} else {}
  }

  /** The common elements are found exactly unless 1 is lost. */
  lemma {:induction false} CommonExactly(A: set<int>, B: set<int>)
    ensures Common(A, B) == A * B <==> !Lost(A, B)
    ensures Lost(A, B) ==> Common(A, B) == A * B - {1}
  {
    if Lost(A, B) {
      assert 1 in A * B && 1 !in Common(A, B);
    }
  }

  /** What stands in front of the place the next element is put. */
  function Before(dr: seq<int>): int { if dr == [] then LBOUND else dr[|dr| - 1] }

  /** Where the search stands: what was passed on one side was met on the other or is below all that is left there. */
  ghost predicate Passed(a: seq<int>, b: seq<int>, i: nat, j: nat)
    requires i <= |a| && j <= |b|
  {
    forall p, q :: 0 <= p < i && j <= q < |b| ==> a[p] < b[q] || (a[p] == b[q] && a[p] in ToSet(b[..j]))
  }

  ghost predicate Met(a: seq<int>, b: seq<int>, i: nat, j: nat, dr: seq<int>) {
    && i <= |a| && j <= |b| && Strict(dr) && Passed(a, b, i, j) && Passed(b, a, j, i)
    && ToSet(dr) == ToSet(a[..i]) * ToSet(b[..j]) - if Lost(ToSet(a), ToSet(b)) then {1} else {}
  }

  lemma {:induction false} MetBoth(a: seq<int>, b: seq<int>, i: nat, j: nat, dr: seq<int>)
    requires Met(a, b, i, j, dr)
    ensures Met(b, a, j, i, dr)
  {
    hide Passed, ToSet;
    assert ToSet(a[..i]) * ToSet(b[..j]) == ToSet(b[..j]) * ToSet(a[..i]);
    LostBoth(ToSet(a), ToSet(b));
  }

  lemma {:induction false} LostBoth(A: set<int>, B: set<int>)
    ensures Lost(A, B) <==> Lost(B, A)
  {
    assert A * B == B * A && A + B == B + A;
  }

  /** The smaller of two elements is passed: it has no partner, or has met it. */
  lemma {:induction false} SkipLeft(a: seq<int>, b: seq<int>, i: nat, j: nat, dr: seq<int>)
    requires Sorted(a) && Sorted(b) && Met(a, b, i, j, dr) && i < |a| && j < |b| && a[i] < b[j]
    ensures Met(a, b, i + 1, j, dr)
  {
    MergedSnoc(a, i);
    forall q | 0 <= q < j && b[q] == a[i] ensures a[i] in ToSet(a[..i]) {
      assert b[q] < a[i] || b[q] in ToSet(a[..i]);
    }
  }

  lemma {:induction false} SkipRight(a: seq<int>, b: seq<int>, i: nat, j: nat, dr: seq<int>)
    requires Sorted(a) && Sorted(b) && Met(a, b, i, j, dr) && i < |a| && j < |b| && b[j] < a[i]
    ensures Met(a, b, i, j + 1, dr)
  {
    hide *;
    MetBoth(a, b, i, j, dr);
    SkipLeft(b, a, j, i, dr);
    MetBoth(b, a, j + 1, i, dr);
  }

  lemma {:induction false} Bounded(a: seq<int>, b: seq<int>, i: nat, j: nat, dr: seq<int>)
    requires Sorted(a) && Met(a, b, i, j, dr) && i < |a|
    ensures forall k :: 0 <= k < |dr| ==> dr[k] <= a[i]
    ensures dr == [] || dr[0] <= a[i]
  {
    forall k | 0 <= k < |dr| ensures dr[k] <= a[i] {
      assert dr[k] in ToSet(dr);
      assert dr[k] in ToSet(a[..i]);
    }
  }

  lemma {:induction false} PutAbove(a: seq<int>, b: seq<int>, i: nat, j: nat, dr: seq<int>)
    requires Met(a, b, i, j, dr) && Lost(ToSet(a), ToSet(b))
    ensures dr == [] || dr[0] > 1
  {
    forall k | 0 <= k < |dr| ensures dr[k] > 1 {
      assert dr[k] in ToSet(dr);
      assert dr[k] in ToSet(a[..i]) && dr[k] in ToSet(b[..j]);
      assert dr[k] in ToSet(a) * ToSet(b);
    }
  }

  lemma {:induction false} BelowPassed(a: seq<int>, i: nat, v: int)
    requires Sorted(a) && i < |a| && v in ToSet(a) && v < a[i]
    ensures v in ToSet(a[..i])
  {
  }

  /** Once 1 is lost nothing is put out that is not above it, so nothing before it is passed. */
  lemma {:induction false} LostThen(a: seq<int>, b: seq<int>, i: nat, j: nat, dr: seq<int>)
    requires Sorted(a) && Sorted(b) && Met(a, b, i, j, dr) && i < |a| && j < |b| && a[i] == b[j] == 1
    requires Lost(ToSet(a), ToSet(b))
    ensures i + j > 0 && dr == []
  {
    Bounded(a, b, i, j, dr);
    PutAbove(a, b, i, j, dr);
    var v :| v in ToSet(a) + ToSet(b) && v < 1;
    assert v in a || v in b;
  }

  lemma {:induction false} ThenLost(a: seq<int>, b: seq<int>, i: nat, j: nat, dr: seq<int>)
    requires Sorted(a) && Sorted(b) && Met(a, b, i, j, dr) && i < |a| && j < |b| && a[i] == b[j] == 1
    requires i + j > 0 && dr == []
    ensures Lost(ToSet(a), ToSet(b))
  {
    var A, B := ToSet(a), ToSet(b);
    if !Lost(A, B) {
      NothingMet(a, b, i, j, dr);
      FirstBelow(a, b, i, j);
      FirstBelow(b, a, j, i);
      assert (if i > 0 then a[0] else b[0]) in A + B;
      assert 1 in A * B;
      forall v | v in A * B ensures v >= 1 {
        if v < 1 {
          NotCommon(a, b, i, j, v);
        }
      }
    }
  }

  lemma {:induction false} NothingMet(a: seq<int>, b: seq<int>, i: nat, j: nat, dr: seq<int>)
    requires Met(a, b, i, j, dr) && dr == [] && !Lost(ToSet(a), ToSet(b))
    ensures ToSet(a[..i]) * ToSet(b[..j]) == {} == ToSet(b[..j]) * ToSet(a[..i])
  {
    assert ToSet(dr) == {};
  }

  lemma {:induction false} NotCommon(a: seq<int>, b: seq<int>, i: nat, j: nat, v: int)
    requires Sorted(a) && Sorted(b) && i < |a| && j < |b| && v < a[i] == b[j]
    requires ToSet(a[..i]) * ToSet(b[..j]) == {}
    ensures v !in ToSet(a) * ToSet(b)
  {
    assert v !in ToSet(a[..i]) * ToSet(b[..j]);
    if v in ToSet(a) {
      BelowPassed(a, i, v);
    }
    if v in ToSet(b) {
      BelowPassed(b, j, v);
    }
  }

  lemma {:induction false} FirstBelow(a: seq<int>, b: seq<int>, i: nat, j: nat)
    requires i < |a| && j < |b| && Passed(a, b, i, j) && ToSet(a[..i]) * ToSet(b[..j]) == {}
    ensures i > 0 ==> a[0] < b[j]
  {
    assert i > 0 ==> a[..i][0] in ToSet(a[..i]);
    assert i > 0 ==> a[0] !in ToSet(a[..i]) * ToSet(b[..j]);
  }

  lemma {:induction false} BothPassed(a: seq<int>, b: seq<int>, i: nat, j: nat, dr: seq<int>)
    requires Sorted(a) && Sorted(b) && Met(a, b, i, j, dr) && i < |a| && j < |b| && a[i] == b[j]
    ensures Passed(a, b, i + 1, j + 1) && Passed(b, a, j + 1, i + 1)
    ensures ToSet(a[..i + 1]) * ToSet(b[..j + 1]) == ToSet(a[..i]) * ToSet(b[..j]) + {b[j]}
  {
    hide Lost;
    MergedSnoc(a, i);
    MergedSnoc(b, j);
    assert b[j] in ToSet(a[..i + 1]) && b[j] in ToSet(b[..j + 1]);
  }

  /** When two equal elements meet, they were met before, are the lost 1, or are put out. */
  lemma {:induction false} Meet(a: seq<int>, b: seq<int>, i: nat, j: nat, dr: seq<int>)
    requires Sorted(a) && Sorted(b) && Met(a, b, i, j, dr) && i < |a| && j < |b| && a[i] == b[j]
    ensures Met(a, b, i + 1, j + 1, if i + j == 0 || Before(dr) != b[j] then dr + [b[j]] else dr)
  {
    hide Lost, Passed;
    Bounded(a, b, i, j, dr);
    BothPassed(a, b, i, j, dr);
    var v := b[j];
    if v == 1 {
      if i + j > 0 && dr == [] {
        ThenLost(a, b, i, j, dr);
      }
      if Lost(ToSet(a), ToSet(b)) {
        LostThen(a, b, i, j, dr);
      }
    }
    ToSetSnoc(dr, v);
    if dr != [] {
      LastIn(dr);
      if Before(dr) != v {
        StrictSnoc(dr, v);
      }
    }
  }

  lemma {:induction false} MetAll(a: seq<int>, b: seq<int>, i: nat, j: nat, dr: seq<int>)
    requires Met(a, b, i, j, dr) && (i == |a| || j == |b|)
    ensures Strict(dr) && ToSet(dr) == Common(ToSet(a), ToSet(b))
  {
    assert a[..|a|] == a && b[..|b|] == b;
  }

  lemma {:induction false} MetNone(a: seq<int>, b: seq<int>)
    ensures Met(a, b, 0, 0, [])
  {
  }

  /** inner_int_inter: the distinct common elements in order, except that a 1 is lost if it is the least of them and
      something lesser was passed before, because the first element is compared with the lower bound. */
  method InnerInter(a: seq<int>, b: seq<int>) returns (dr: seq<int>)
    requires Sorted(a) && Sorted(b)
    ensures Strict(dr) && ToSet(dr) == Common(ToSet(a), ToSet(b))
  {
    hide Sorted, Strict, ToSet, Met, Common;
    dr := [];
    var i, j := 0, 0;
    MetNone(a, b);
    while i < |a| && j < |b|
      invariant i <= |a| && j <= |b| && Met(a, b, i, j, dr)
      decreases |a| + |b| - i - j
    {
      if a[i] < b[j] {
        SkipLeft(a, b, i, j, dr);
        i := i + 1;
      } else if a[i] == b[j] {
        Meet(a, b, i, j, dr);
        if i + j == 0 || Before(dr) != b[j] {
          dr := dr + [b[j]];
        }
        i, j := i + 1, j + 1;
      } else {
        SkipRight(a, b, i, j, dr);
        j := j + 1;
      }
    }
    MetAll(a, b, i, j, dr);
  }

  /** SORT and inner_int_inter: the operator & on arrays. */
  method Inter(s: seq<int>, t: seq<int>) returns (r: seq<int>)
    ensures Strict(r) && ToSet(r) == Common(ToSet(s), ToSet(t))
    ensures ToSet(r) == ToSet(s) * ToSet(t) <==> !Lost(ToSet(s), ToSet(t))
  {
    hide Sorted, Strict, ToSet, Common, Lost, HasDuplicate;
    CommonExactly(ToSet(s), ToSet(t));
    if s == [] || t == [] {
      CommonNone(s, t);
      return [];
    }
    var a := Sort(s);
    var b := Sort(t);
    r := InnerInter(a, b);
  }

  lemma {:induction false} CommonNone(s: seq<int>, t: seq<int>)
    requires s == [] || t == []
    ensures Strict([]) && ToSet([]) == Common(ToSet(s), ToSet(t))
  {
    assert ToSet([]) == {};
  }

  /** SORT. */
  method Sort(s: seq<int>) returns (r: seq<int>)
    ensures Sorted(r) && ToSet(r) == ToSet(s)
  {
    hide ToSet, HasDuplicate;
    var a := new int[|s|](i requires 0 <= i < |s| => s[i]);
    assert a[..] == s;
    if |s| > 1 {
      var dup := Isort(a);
      SameElements(a[..], s);
    }
    r := a[..];
  }

  /** {0, 1} & {1} comes out empty. */
  lemma {:induction false} LostExample()
    ensures Lost({0, 1}, {1}) && Common({0, 1}, {1}) == {}
  {
    assert {0, 1} * {1} == {1};
    assert 0 in {0, 1} + {1};
  }
}

/** The range-key index: unions, the consistency test, and searching a tree. */
module IntIndex {
  import opened IntSets
  import opened IntRanges
  import opened BoolQuery
  import opened BoolExec

  // ---- The operators and their test on a key ------------------------------

  datatype Strategy = Overlapping | Same | Containing | ContainedBy

  /** What the operators mean on the sets of elements; containment is false when a side is empty. */
  ghost predicate Holds(st: Strategy, A: set<int>, Q: set<int>) {
    match st
    case Overlapping => A * Q != {}
    case Same => A == Q
    case Containing => A != {} && Q != {} && Q <= A
    case ContainedBy => A != {} && Q != {} && A <= Q
  }

  /** What g_int_consistent answers for a key with the elements K. */
  ghost predicate Consistent(st: Strategy, leaf: bool, K: set<int>, Q: set<int>) {
    Q != {} && Holds(if leaf then st else if st == ContainedBy then Overlapping else if st == Same then Containing else st, K, Q)
  }

  lemma {:induction false} OverlapIsSets(a: seq<int>, b: seq<int>)
    ensures (exists x :: x in a && x in b) <==> ToSet(a) * ToSet(b) != {}
  {
    if x :| x in a && x in b {
      assert x in ToSet(a) * ToSet(b);
    }
    if ToSet(a) * ToSet(b) != {} {
      var x := Member(ToSet(a) * ToSet(b));
      assert x in a && x in b;
    }
  }

  lemma {:induction false} StrictUnique(a: seq<int>, b: seq<int>)
    requires Strict(a) && Strict(b) && ToSet(a) == ToSet(b)
    ensures a == b
  {
    hide ToSet, Strict;
    EmptySets(a);
    EmptySets(b);
    if a != [] && b != [] {
      LastOf(a, b);
      LastOf(b, a);
      InitOf(a);
      InitOf(b);
      var x, s, t := a[|a| - 1], a[..|a| - 1], b[..|b| - 1];
      assert a == s + [x] && b == t + [x];
      StrictUnique(s, t);
    }
  }

  lemma {:induction false} InitOf(a: seq<int>)
    requires Strict(a) && a != []
    ensures Strict(a[..|a| - 1]) && ToSet(a[..|a| - 1]) == ToSet(a) - {a[|a| - 1]}
  {
    var s, x := a[..|a| - 1], a[|a| - 1];
    assert a == s + [x] && x !in s;
  }

  lemma {:induction false} LastOf(a: seq<int>, b: seq<int>)
    requires Strict(a) && Strict(b) && ToSet(a) == ToSet(b) && a != []
    ensures b != [] && a[|a| - 1] <= b[|b| - 1]
  {
    var x := a[|a| - 1];
    assert x in ToSet(b);
  }

  /** What the operators answer for two arrays: equality counts duplicates, the others do not. */
  ghost predicate Operator(st: Strategy, arr: seq<int>, query: seq<int>) {
    if st == Same then multiset(arr) == multiset(query) else Holds(st, ToSet(arr), ToSet(query))
  }

  ghost predicate NoDuplicates(s: seq<int>) {
    forall i, j :: 0 <= i < j < |s| ==> s[i] != s[j]
  }

  /** Whatever an operator accepts holds of the sets; the converse needs arrays without duplicates, for equality. */
  lemma {:induction false} OperatorIsSets(st: Strategy, arr: seq<int>, query: seq<int>)
    ensures Operator(st, arr, query) ==> Holds(st, ToSet(arr), ToSet(query))
    ensures st != Same || (NoDuplicates(arr) && NoDuplicates(query)) ==>
      (Operator(st, arr, query) <==> Holds(st, ToSet(arr), ToSet(query)))
  {
    if st == Same {
      if multiset(arr) == multiset(query) {
        forall v ensures v in arr <==> v in query {
          assert v in multiset(arr) <==> v in multiset(query);
        }
      }
      if NoDuplicates(arr) && NoDuplicates(query) && ToSet(arr) == ToSet(query) {
        forall v ensures multiset(arr)[v] == multiset(query)[v] {
          CountedOnce(arr, v);
          CountedOnce(query, v);
          assert v in ToSet(arr) <==> v in ToSet(query);
        }
      }
    }
  }

  lemma {:induction false} CountedOnce(s: seq<int>, v: int)
    requires NoDuplicates(s)
    ensures multiset(s)[v] == if v in s then 1 else 0
  {
    if s != [] {
      var r, x := s[..|s| - 1], s[|s| - 1];
      assert s == r + [x];
      CountedOnce(r, v);
      forall i | 0 <= i < |r| ensures r[i] != x {
        assert s[i] != s[|s| - 1];
      }
    }
  }

  lemma {:induction false} SortedLast(a: seq<int>, b: seq<int>)
    requires Sorted(a) && Sorted(b) && multiset(a) == multiset(b) && a != []
    ensures b != [] && a[|a| - 1] <= b[|b| - 1]
  {
    assert a[|a| - 1] in multiset(b);
  }

  lemma {:induction false} InitCounts(a: seq<int>)
    requires Sorted(a) && a != []
    ensures Sorted(a[..|a| - 1]) && multiset(a) == multiset(a[..|a| - 1]) + multiset{a[|a| - 1]}
  {
    assert a == a[..|a| - 1] + [a[|a| - 1]];
  }

  lemma {:induction false} TakeOne(m: multiset<int>, n: multiset<int>, x: int)
    requires m + multiset{x} == n + multiset{x}
    ensures m == n
  {
    assert m == (m + multiset{x}) - multiset{x};
    assert n == (n + multiset{x}) - multiset{x};
  }

  lemma {:induction false} SameEmpty(a: seq<int>, b: seq<int>)
    requires multiset(a) == multiset(b)
    ensures a == [] <==> b == []
  {
    assert |a| == |multiset(a)| && |b| == |multiset(b)|;
  }

  /** Sorted arrays are equal when they have the same elements as often. */
  lemma {:induction false} SortedUnique(a: seq<int>, b: seq<int>)
    requires Sorted(a) && Sorted(b) && multiset(a) == multiset(b)
    ensures a == b
  {
    hide Sorted;
    SameEmpty(a, b);
    if a != [] {
      var s, x, t, y := a[..|a| - 1], a[|a| - 1], b[..|b| - 1], b[|b| - 1];
      SortedLast(a, b);
      SortedLast(b, a);
      InitCounts(a);
      InitCounts(b);
      TakeOne(multiset(s), multiset(t), x);
      SortedUnique(s, t);
      assert a == s + [x] && b == t + [y];
    }
  }

  /** _int_same: both arrays sorted, then element by element. */
  method IntSame(a: array<int>, b: array<int>) returns (result: bool)
    requires a != b
    modifies a, b
    ensures result <==> Operator(Same, old(a[..]), old(b[..]))
  {
    hide Sorted;
    if a.Length == 0 || b.Length == 0 {
      assert |multiset(a[..])| == a.Length && |multiset(b[..])| == b.Length;
      return a.Length == 0 && b.Length == 0;
    }
    assert |multiset(a[..])| == a.Length && |multiset(b[..])| == b.Length;
    if a.Length != b.Length {
      return false;
    }
    var da := Isort(a);
    var db := Isort(b);
    result := SameArrays(a[..], b[..]);
    if multiset(a[..]) == multiset(b[..]) {
      SortedUnique(a[..], b[..]);
    }
  }

  /** g_int_same: element by element. */
  method SameArrays(a: seq<int>, b: seq<int>) returns (result: bool)
    ensures result <==> a == b
  {
    if |a| != |b| {
      return false;
    }
    var n := 0;
    while n < |a|
      invariant 0 <= n <= |a| && a[..n] == b[..n]
    {
      if a[n] != b[n] {
        return false;
      }
      n := n + 1;
    }
    assert a[..n] == a && b[..n] == b;
    return true;
  }

  /** g_int_consistent for the array strategies. */
  method GIntConsistent(key: seq<int>, query: seq<int>, st: Strategy, leaf: bool) returns (res: bool)
    requires Strict(key)
    ensures res <==> Consistent(st, leaf, ToSet(key), ToSet(query))
  {
    hide ToSet, Strict, Sorted;
    EmptySets(query);
    EmptySets(key);
    if query == [] {
      return false;
    }
    var q := Prepare(query);
    EmptySets(q);
    StrictSorted(q);
    StrictSorted(key);
    OverlapIsSets(key, q);
    match st
    case Overlapping =>
      res := Overlap(key, q);
    case Same =>
      if leaf {
        res := SameArrays(key, q);
        SameSets(key, q);
      } else {
        res := Contains(key, q);
      }
    case Containing =>
      res := Contains(key, q);
    case ContainedBy =>
      if leaf {
        res := Contains(q, key);
      } else {
        res := Overlap(key, q);
      }
  }

  lemma {:induction false} EmptySets(s: seq<int>)
    ensures s == [] <==> ToSet(s) == {}
  {
    if s != [] {
      assert s[0] in ToSet(s);
    }
  }

  lemma {:induction false} StrictSorted(s: seq<int>)
    requires Strict(s)
    ensures Sorted(s)
  {
  }

  lemma {:induction false} SameSets(a: seq<int>, b: seq<int>)
    requires Strict(a) && Strict(b)
    ensures a == b <==> ToSet(a) == ToSet(b)
  {
    if ToSet(a) == ToSet(b) {
      StrictUnique(a, b);
    }
  }

  /** On a leaf the test is the operator; on an inner key nothing below is rejected that the operator accepts. */
  lemma {:induction false} ConsistentIsSound(st: Strategy, A: set<int>, K: set<int>, Q: set<int>)
    requires Q != {}
    ensures Consistent(st, true, A, Q) <==> Holds(st, A, Q)
    ensures A <= K && Holds(st, A, Q) ==> Consistent(st, false, K, Q)
  {
    if A <= K && Holds(st, A, Q) {
      NotRejected(st, A, K, Q);
    }
  }

  lemma {:induction false} NotRejected(st: Strategy, A: set<int>, K: set<int>, Q: set<int>)
    requires Q != {} && A <= K && Holds(st, A, Q)
    ensures Consistent(st, false, K, Q)
  {
    match st
    case Overlapping =>
      var x := Member(A * Q);
      assert x in K * Q;
    case Same =>
    case Containing =>
    case ContainedBy =>
      var x := Member(A);
      assert x in K * Q;
  }

  /** On an inner key the test is no weaker than it must be: it passes exactly the keys that hold the elements of some array the
      operator accepts. */
  lemma {:induction false} InnerExactly(st: Strategy, K: set<int>, Q: set<int>)
    requires Q != {}
    ensures Consistent(st, false, K, Q) <==> exists A :: A <= K && Holds(st, A, Q)
  {
    if A :| A <= K && Holds(st, A, Q) {
      NotRejected(st, A, K, Q);
    }
    if Consistent(st, false, K, Q) {
      if st == Overlapping || st == ContainedBy {
        var x := Member(K * Q);
        assert x in {x} * Q;
        assert {x} <= K && Holds(st, {x}, Q);
      } else {
        assert Q <= K && Holds(st, Q, Q);
      }
    }
  }

  // ---- g_int_union --------------------------------------------------------

  ghost function UnionOf(entries: seq<seq<int>>): set<int> {
    if entries == [] then {} else UnionOf(entries[..|entries| - 1]) + ToSet(entries[|entries| - 1])
  }

  lemma {:induction false} UnionHas(entries: seq<seq<int>>, i: nat)
    requires i < |entries|
    ensures ToSet(entries[i]) <= UnionOf(entries)
  {
    if i < |entries| - 1 {
      UnionHas(entries[..|entries| - 1], i);
    }
  }

  lemma {:induction false} ToSetConcat(s: seq<int>, t: seq<int>)
    ensures ToSet(s + t) == ToSet(s) + ToSet(t)
  {
  }

  /** g_int_union: all elements of all entries, sorted, each once. */
  method GIntUnion(entries: seq<seq<int>>) returns (res: seq<int>)
    ensures Strict(res) && ToSet(res) == UnionOf(entries)
  {
    hide ToSet, Strict;
    var all: seq<int> := [];
    NoElements();
    for i := 0 to |entries|
      invariant ToSet(all) == UnionOf(entries[..i])
    {
      assert entries[..i + 1][..i] == entries[..i];
      ToSetConcat(all, entries[i]);
      all := all + entries[i];
    }
    assert entries[..|entries|] == entries;
    res := Prepare(all);
  }

  lemma {:induction false} NoElements()
    ensures ToSet([]) == {}
  {
  }

  // ---- Searching a tree ---------------------------------------------------

  /** An index: leaf entries for arrays, inner entries for subtrees, each with its key. */
  datatype Tree<K> = Leaf(key: K, arr: seq<int>) | Node(key: K, children: seq<Tree<K>>)

  /** The arrays below an entry. */
  ghost function Arrays<K>(t: Tree<K>): seq<seq<int>> {
    match t
    case Leaf(key, arr) => [arr]
    case Node(key, children) => ArraysOf(children)
  }

  ghost function ArraysOf<K>(ts: seq<Tree<K>>): seq<seq<int>> {
    if ts == [] then [] else Arrays(ts[0]) + ArraysOf(ts[1..])
  }

  /** The arrays a search finds below an entry: it descends where the test says so. */
  ghost function Search<K(!new)>(t: Tree<K>, test: (K, bool) -> bool): seq<seq<int>> {
    if !test(t.key, t.Leaf?) then []
    else
      match t
      case Leaf(key, arr) => [arr]
      case Node(key, children) => SearchAll(children, test)
  }

  ghost function SearchAll<K(!new)>(ts: seq<Tree<K>>, test: (K, bool) -> bool): seq<seq<int>> {
    if ts == [] then [] else Search(ts[0], test) + SearchAll(ts[1..], test)
  }

  ghost function Filter(s: seq<seq<int>>, exact: seq<int> -> bool): seq<seq<int>> {
    if s == [] then [] else (if exact(s[0]) then [s[0]] else []) + Filter(s[1..], exact)
  }

  lemma {:induction false} FilterConcat(s: seq<seq<int>>, t: seq<seq<int>>, exact: seq<int> -> bool)
    ensures Filter(s + t, exact) == Filter(s, exact) + Filter(t, exact)
  {
    if s == [] {
      assert s + t == t && Filter(s, exact) == [];
    } else {
      FilterConcat(s[1..], t, exact);
      assert (s + t)[1..] == s[1..] + t && (s + t)[0] == s[0];
      var h, a, b := if exact(s[0]) then [s[0]] else [], Filter(s[1..], exact), Filter(t, exact);
      assert h + (a + b) == (h + a) + b;
    }
  }

  lemma {:induction false} FilterNone(s: seq<seq<int>>, exact: seq<int> -> bool)
    requires forall i :: 0 <= i < |s| ==> !exact(s[i])
    ensures Filter(s, exact) == []
  {
    if s != [] {
      FilterNone(s[1..], exact);
    }
  }

  /** The test decides at a leaf and never rejects an entry above an array that matches. */
  ghost predicate Faithful<K(!new)>(t: Tree<K>, test: (K, bool) -> bool, exact: seq<int> -> bool)
    decreases t
  {
    match t
    case Leaf(key, arr) => test(key, true) == exact(arr)
    case Node(key, children) =>
      && (forall i :: 0 <= i < |Arrays(t)| && exact(Arrays(t)[i]) ==> test(key, false))
      && (forall i :: 0 <= i < |children| ==> Faithful(children[i], test, exact))
  }

  /** A search with such a test finds exactly the matching arrays. */
  lemma {:induction false} SearchIsFilter<K(!new)>(t: Tree<K>, test: (K, bool) -> bool, exact: seq<int> -> bool)
    requires Faithful(t, test, exact)
    ensures Search(t, test) == Filter(Arrays(t), exact)
    decreases t, 0
  {
    if !test(t.key, t.Leaf?) {
      FilterNone(Arrays(t), exact);
    } else {
      match t
      case Leaf(key, arr) =>
        assert [arr][1..] == [];
      case Node(key, children) =>
        SearchAllIsFilter(t, children, test, exact);
    }
  }

  lemma {:induction false} SearchAllIsFilter<K(!new)>(t: Tree<K>, ts: seq<Tree<K>>, test: (K, bool) -> bool, exact: seq<int> -> bool)
    requires forall i :: 0 <= i < |ts| ==> ts[i] < t && Faithful(ts[i], test, exact)
    ensures SearchAll(ts, test) == Filter(ArraysOf(ts), exact)
    decreases t, 0, |ts|
  {
    if ts != [] {
      SearchIsFilter(ts[0], test, exact);
      SearchAllIsFilter(t, ts[1..], test, exact);
      FilterConcat(Arrays(ts[0]), ArraysOf(ts[1..]), exact);
    }
  }

  // ---- Trees of range keys ------------------------------------------------

  /** The elements a stored key shows, when it can be decompressed. */
  ghost function Elements(key: seq<int>): set<int> {
    if Decompressible(key) then ToSet(Shown(key)) else {}
  }

  /** key is what compression stores for a list with the elements of all the children's keys. */
  ghost predicate Summarizes(key: seq<int>, u: seq<int>, children: seq<Tree<seq<int>>>) {
    Strict(u) && StoredAs(u, key) && Decompressible(key) && forall i :: 0 <= i < |children| ==> Elements(children[i].key) <= ToSet(u)
  }

  /** A leaf key is not compressed, but from 200 elements on it is decompressed: it is shown as it is when it is made of pairs
      of neighbours and decompression ends. */
  ghost predicate LeafShown(key: seq<int>) {
    || |key| < 2 * MAXNUMRANGE
    || (|key| % 2 == 0 && PairsAdjoin(key) && key[|key| - 1] < 0x7fff_ffff && |key| < 0x8000_0000)
  }

  ghost predicate PairsAdjoin(key: seq<int>) {
    forall k :: 0 <= 2 * k < |key| - 1 ==> key[2 * k + 1] == key[2 * k] + 1
  }

  /** Leaf keys that are shown as they are; inner keys from unions, compressed, on which decompression ends. */
  ghost predicate Indexed(t: Tree<seq<int>>)
    decreases t
  {
    match t
    case Leaf(key, arr) => Strict(key) && ToSet(key) == ToSet(arr) && LeafShown(key)
    case Node(key, children) =>
      && (forall i :: 0 <= i < |children| ==> Indexed(children[i]))
      && exists u :: Summarizes(key, u, children)
  }

  lemma {:induction false} SummaryCovers(key: seq<int>, u: seq<int>, children: seq<Tree<seq<int>>>, i: nat)
    requires Summarizes(key, u, children) && i < |children|
    ensures Elements(children[i].key) <= Elements(key)
  {
    ShownCovers(u, key);
  }

  lemma {:induction false} SummaryShown(key: seq<int>, u: seq<int>, children: seq<Tree<seq<int>>>)
    requires Summarizes(key, u, children)
    ensures Decompressible(key)
  {
  }

  /** Every key shows all elements of all arrays below it. */
  lemma {:induction false} KeyCovers(t: Tree<seq<int>>, j: nat)
    requires Indexed(t) && j < |Arrays(t)|
    ensures ToSet(Arrays(t)[j]) <= Elements(t.key)
    decreases t, 0
  {
    hide Elements, Summarizes, ToSet, Strict;
    match t
    case Leaf(key, arr) =>
      LeafElements(key);
    case Node(key, children) =>
      var u :| Summarizes(key, u, children);
      forall i | 0 <= i < |children| ensures Elements(children[i].key) <= Elements(key) {
        SummaryCovers(key, u, children, i);
      }
      KeysCover(t, children, j, Elements(key));
  }

  lemma {:induction false} LeafElements(key: seq<int>)
    requires Strict(key) && LeafShown(key)
    ensures Decompressible(key) && Shown(key) == key && Elements(key) == ToSet(key)
  {
    if |key| >= 2 * MAXNUMRANGE {
      StrictRanges(key);
      PairsExpand(key);
    }
  }

  lemma {:induction false} StrictRanges(key: seq<int>)
    requires Strict(key) && |key| % 2 == 0
    ensures RangeList(key)
  {
  }

  lemma {:induction false} PairsExpand(key: seq<int>)
    requires |key| % 2 == 0 && PairsAdjoin(key)
    ensures Expand(key) == key
  {
    hide Interval, PairsAdjoin;
    if key != [] {
      var s, a, b := key[..|key| - 2], key[|key| - 2], key[|key| - 1];
      PairsInit(key);
      PairsExpand(s);
      PairInterval(a);
      assert key == s + [a, b];
    }
  }

  lemma {:induction false} PairsInit(key: seq<int>)
    requires |key| % 2 == 0 && PairsAdjoin(key) && key != []
    ensures PairsAdjoin(key[..|key| - 2]) && key[|key| - 1] == key[|key| - 2] + 1
  {
    var s, m := key[..|key| - 2], |key| / 2 - 1;
    assert key[2 * m + 1] == key[2 * m] + 1;
    forall k | 0 <= 2 * k < |s| - 1 ensures s[2 * k + 1] == s[2 * k] + 1 {
      assert key[2 * k + 1] == key[2 * k] + 1;
    }
  }

  lemma {:induction false} PairInterval(a: int)
    ensures Interval(a, a + 1) == [a, a + 1]
  {
  }

  /** A long leaf key shows all its elements, and no others exactly when its pairs are neighbours. */
  lemma {:induction false} LongLeafElements(key: seq<int>)
    requires Strict(key) && |key| >= 2 * MAXNUMRANGE && Decompressible(key)
    ensures ToSet(key) <= Elements(key)
    ensures Elements(key) == ToSet(key) <==> PairsAdjoin(key)
    ensures !PairsAdjoin(key) ==> exists v :: v in Elements(key) && v !in ToSet(key)
  {
    hide Decompressible, RangeList;
    RangesEven(key);
    forall v | v in key ensures v in Expand(key) {
      LiesInRanges(key, v);
      ExpandHas(key, v);
    }
    if PairsAdjoin(key) {
      PairsExpand(key);
    } else {
      var k :| 0 <= 2 * k < |key| - 1 && key[2 * k + 1] != key[2 * k] + 1;
      var v := key[2 * k] + 1;
      assert key[2 * k] < key[2 * k + 1];
      assert key[2 * k] <= v <= key[2 * k + 1];
      ExpandHas(key, v);
      StrictGap(key, 2 * k, v);
      assert v in Elements(key) && v !in ToSet(key);
    }
  }

  lemma {:induction false} RangesEven(key: seq<int>)
    requires |key| >= 2 * MAXNUMRANGE && Decompressible(key)
    ensures |key| % 2 == 0
  {
  }

  lemma {:induction false} LiesInRanges(key: seq<int>, v: int)
    requires Strict(key) && |key| % 2 == 0 && v in key
    ensures InRanges(key, v)
  {
    var i :| 0 <= i < |key| && key[i] == v;
    var k := i / 2;
    assert key[2 * k] <= v <= key[2 * k + 1];
  }

  lemma {:induction false} StrictGap(key: seq<int>, i: nat, v: int)
    requires Strict(key) && i + 1 < |key| && key[i] < v < key[i + 1]
    ensures v !in key
  {
    forall j | 0 <= j < |key| ensures key[j] != v {
      if j <= i {
        assert key[j] <= key[i];
      } else {
        assert key[i + 1] <= key[j];
      }
    }
  }

  /** For every single strategy the test on a long leaf key agrees with the operator on all queries exactly when the pairs of
      the key are neighbours. Otherwise overlap and containment never lose a match and return others too, being contained
      never returns another and loses some, and equality does both. */
  lemma {:induction false} LongLeafExactly(key: seq<int>, st: Strategy)
    requires Strict(key) && |key| >= 2 * MAXNUMRANGE && Decompressible(key)
    ensures (forall Q :: Q != {} ==> (Consistent(st, true, Elements(key), Q) <==> Holds(st, ToSet(key), Q))) <==> PairsAdjoin(key)
    ensures st == Overlapping || st == Containing ==>
      forall Q :: Q != {} && Holds(st, ToSet(key), Q) ==> Consistent(st, true, Elements(key), Q)
    ensures st == ContainedBy ==>
      forall Q :: Q != {} && Consistent(st, true, Elements(key), Q) ==> Holds(st, ToSet(key), Q)
    ensures st == Same && !PairsAdjoin(key) ==>
      forall Q :: Q != {} ==> !(Consistent(st, true, Elements(key), Q) && Holds(st, ToSet(key), Q))
  {
    hide Elements, Decompressible, PairsAdjoin;
    var A, E := ToSet(key), Elements(key);
    LongLeafElements(key);
    assert key[0] in A;
    if !PairsAdjoin(key) {
      var v :| v in E && v !in A;
      var Q := if st == Overlapping || st == Containing then {v} else A;
      assert Q != {} && v in E;
      assert Consistent(st, true, E, Q) != Holds(st, A, Q);
    }
  }

  lemma {:induction false} KeysCover(t: Tree<seq<int>>, ts: seq<Tree<seq<int>>>, j: nat, E: set<int>)
    requires forall i :: 0 <= i < |ts| ==> ts[i] < t && Indexed(ts[i]) && Elements(ts[i].key) <= E
    requires j < |ArraysOf(ts)|
    ensures ToSet(ArraysOf(ts)[j]) <= E
    decreases t, 0, |ts|
  {
    hide Elements, ToSet, Indexed;
    if j < |Arrays(ts[0])| {
      KeyCovers(ts[0], j);
    } else {
      KeysCover(t, ts[1..], j - |Arrays(ts[0])|, E);
    }
  }

  lemma {:induction false} TreeFaithful(t: Tree<seq<int>>, test: (seq<int>, bool) -> bool, exact: seq<int> -> bool)
    requires Indexed(t)
    requires forall key, arr :: Strict(key) && LeafShown(key) && ToSet(key) == ToSet(arr) ==> test(key, true) == exact(arr)
    requires forall key, arr :: Decompressible(key) && ToSet(arr) <= Elements(key) && exact(arr) ==> test(key, false)
    ensures Faithful(t, test, exact)
    decreases t
  {
    hide Elements, ToSet, Summarizes, Decompressible;
    if t.Node? {
      var u :| Summarizes(t.key, u, t.children);
      SummaryShown(t.key, u, t.children);
      forall i | 0 <= i < |Arrays(t)| && exact(Arrays(t)[i]) ensures test(t.key, false) {
        KeyCovers(t, i);
      }
      forall i | 0 <= i < |t.children| ensures Faithful(t.children[i], test, exact) {
        TreeFaithful(t.children[i], test, exact);
      }
    }
  }

  /** Index search finds exactly the arrays the operator accepts, for every query that is not empty. */
  lemma {:induction false} SearchFindsAll(t: Tree<seq<int>>, st: Strategy, Q: set<int>)
    requires Indexed(t) && Q != {}
    ensures Search(t, (key, leaf) => Consistent(st, leaf, Elements(key), Q)) == Filter(Arrays(t), arr => Holds(st, ToSet(arr), Q))
  {
    hide Indexed, Faithful, Search, Filter;
    var test := (key: seq<int>, leaf: bool) => Consistent(st, leaf, Elements(key), Q);
    var exact := (arr: seq<int>) => Holds(st, ToSet(arr), Q);
    forall key: seq<int>, arr: seq<int> | Strict(key) && LeafShown(key) && ToSet(key) == ToSet(arr)
      ensures test(key, true) == exact(arr)
    {
      LeafElements(key);
      ConsistentIsSound(st, ToSet(key), ToSet(key), Q);
    }
    forall key: seq<int>, arr: seq<int> | ToSet(arr) <= Elements(key) && exact(arr) ensures test(key, false) {
      ConsistentIsSound(st, ToSet(arr), Elements(key), Q);
    }
    TreeFaithful(t, test, exact);
    SearchIsFilter(t, test, exact);
  }

  lemma {:induction false} FilterTwice(s: seq<seq<int>>, p: seq<int> -> bool, r: seq<int> -> bool)
    requires forall x :: r(x) ==> p(x)
    ensures Filter(Filter(s, p), r) == Filter(s, r)
  {
    if s != [] {
      FilterTwice(s[1..], p, r);
      var f := Filter(s[1..], p);
      assert ([s[0]] + f)[1..] == f && [] + f == f;
    }
  }

  lemma {:induction false} FilterSame(s: seq<seq<int>>, p: seq<int> -> bool, r: seq<int> -> bool)
    requires forall i :: 0 <= i < |s| ==> (p(s[i]) <==> r(s[i]))
    ensures Filter(s, p) == Filter(s, r)
  {
    if s != [] {
      FilterSame(s[1..], p, r);
    }
  }

  /** Rechecked with the operator, as the operator class asks for equality, the search finds exactly what the operator accepts;
      without a recheck too, for the other operators and for arrays without duplicates. */
  lemma {:induction false} RecheckedIsExact(t: Tree<seq<int>>, st: Strategy, query: seq<int>)
    requires Indexed(t) && query != []
    ensures var found := Search(t, (key, leaf) => Consistent(st, leaf, Elements(key), ToSet(query)));
      && Filter(found, arr => Operator(st, arr, query)) == Filter(Arrays(t), arr => Operator(st, arr, query))
      && (st != Same || (NoDuplicates(query) && forall i :: 0 <= i < |Arrays(t)| ==> NoDuplicates(Arrays(t)[i])) ==>
           found == Filter(Arrays(t), arr => Operator(st, arr, query)))
  {
    hide Indexed, Search, Filter, Elements, Operator, NoDuplicates, Holds;
    var Q := ToSet(query);
    var p, r := (arr: seq<int>) => Holds(st, ToSet(arr), Q), (arr: seq<int>) => Operator(st, arr, query);
    assert query[0] in Q;
    SearchFindsAll(t, st, Q);
    forall arr: seq<int> ensures r(arr) ==> p(arr) {
      OperatorIsSets(st, arr, query);
    }
    FilterTwice(Arrays(t), p, r);
    if st != Same || (NoDuplicates(query) && forall i :: 0 <= i < |Arrays(t)| ==> NoDuplicates(Arrays(t)[i])) {
      forall i | 0 <= i < |Arrays(t)| ensures p(Arrays(t)[i]) <==> r(Arrays(t)[i]) {
        OperatorIsSets(st, Arrays(t)[i], query);
      }
      FilterSame(Arrays(t), p, r);
    }
  }

  /** The boolean strategy: exact on a leaf, negations taken as true above. */
  ghost predicate BoolTest(q: Query, K: set<int>, leaf: bool) {
    if leaf then Eval(q, x => x in K) else Loose(q, x => x in K)
  }

  lemma {:induction false} EvalSame(q: Query, f: int -> bool, g: int -> bool)
    requires forall x :: f(x) == g(x)
    ensures Eval(q, f) == Eval(q, g) && Loose(q, f) == Loose(q, g)
  {
    match q
    case Val(v) =>
    case Not(p) => EvalSame(p, f, g);
    case And(l, r) =>
      EvalSame(l, f, g);
      EvalSame(r, f, g);
    case Or(l, r) =>
      EvalSame(l, f, g);
      EvalSame(r, f, g);
  }

  /** The test on a key is what execconsistent answers on the key's elements. */
  lemma {:induction false} BoolTestIs(items: seq<Item>, key: seq<int>, leaf: bool, q: Query)
    requires IsQuery(items, q)
    ensures ExecConsistent(items, key, leaf, q) == BoolTest(q, ToSet(key), leaf)
  {
    hide Exact, ExecConsistent, IsQuery;
    ExecConsistentIs(items, key, leaf, q);
    var K := ToSet(key);
    EvalSame(q, x => x in key, x => x in K);
  }

  /** What g_int_consistent answers for a stored key: execconsistent on what the key shows. */
  ghost predicate BoolConsistent(items: seq<Item>, key: seq<int>, leaf: bool, q: Query)
    requires IsQuery(items, q)
  {
    Decompressible(key) && ExecConsistent(items, Shown(key), leaf, q)
  }

  lemma {:induction false} BoolConsistentIs(items: seq<Item>, key: seq<int>, leaf: bool, q: Query)
    requires IsQuery(items, q)
    ensures Decompressible(key) ==> (BoolConsistent(items, key, leaf, q) <==> BoolTest(q, Elements(key), leaf))
  {
    if Decompressible(key) {
      BoolTestIs(items, Shown(key), leaf, q);
    }
  }

  /** boolop: false on an empty array, whatever the query. */
  ghost predicate Boolop(items: seq<Item>, arr: seq<int>, q: Query)
    requires IsQuery(items, q)
  {
    arr != [] && ExecConsistent(items, arr, true, q)
  }

  /** The test on a leaf answers as boolop does exactly when the array has an element or the query is false on none. */
  lemma {:induction false} BoolopExactly(items: seq<Item>, arr: seq<int>, q: Query)
    requires IsQuery(items, q)
    ensures (ExecConsistent(items, arr, true, q) <==> Boolop(items, arr, q)) <==> arr != [] || !Eval(q, x => false)
  {
    hide ExecConsistent, IsQuery;
    BoolTestIs(items, arr, true, q);
    if arr == [] {
      NoElements();
      var A := ToSet(arr);
      EvalSame(q, x => x in A, x => false);
    }
  }

  /** Boolean index search, by what execconsistent answers on the keys, finds exactly the arrays on which the query is true. */
  lemma {:induction false} BoolSearchFindsAll(t: Tree<seq<int>>, items: seq<Item>, q: Query)
    requires Indexed(t) && IsQuery(items, q)
    ensures Search(t, (key, leaf) => IsQuery(items, q) && BoolConsistent(items, key, leaf, q)) ==
      Filter(Arrays(t), arr => IsQuery(items, q) && ExecConsistent(items, arr, true, q))
  {
    hide Indexed, Faithful, Search, Filter, Eval, Loose, ExecConsistent, IsQuery, BoolConsistent, Elements, LeafShown, Decompressible;
    var test := (key: seq<int>, leaf: bool) => IsQuery(items, q) && BoolConsistent(items, key, leaf, q);
    var exact := (arr: seq<int>) => IsQuery(items, q) && ExecConsistent(items, arr, true, q);
    forall key: seq<int>, arr: seq<int> | Strict(key) && LeafShown(key) && ToSet(key) == ToSet(arr)
      ensures test(key, true) == exact(arr)
    {
      LeafElements(key);
      BoolConsistentIs(items, key, true, q);
      BoolTestIs(items, arr, true, q);
    }
    forall key: seq<int>, arr: seq<int> | Decompressible(key) && ToSet(arr) <= Elements(key) && exact(arr)
      ensures test(key, false)
    {
      BoolConsistentIs(items, key, false, q);
      BoolTestIs(items, arr, true, q);
      var A, K := ToSet(arr), Elements(key);
      LooseIsSound(q, x => x in A, x => x in K);
    }
    TreeFaithful(t, test, exact);
    SearchIsFilter(t, test, exact);
  }
}

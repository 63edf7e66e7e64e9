/** g_int_picksplit, and how inner keys are made. */
module IntSplit {
  import opened IntSets
  import opened IntInter
  import opened IntRanges
  import opened IntIndex

  // ---- Splitting a page ---------------------------------------------------

  datatype SplitCost = SplitCost(pos: nat, cost: real)

  ghost function PositionsOf(s: seq<SplitCost>): seq<nat> {
    seq(|s|, i requires 0 <= i < |s| => s[i].pos)
  }

  /** The elements of the entries at some positions. */
  ghost function Gathered(vec: seq<seq<int>>, at: seq<nat>): set<int>
    requires forall i :: 0 <= i < |at| ==> at[i] < |vec|
  {
    if at == [] then {} else Gathered(vec, at[..|at| - 1]) + ToSet(vec[at[|at| - 1]])
  }

  lemma {:induction false} GatheredSnoc(vec: seq<seq<int>>, at: seq<nat>, i: nat)
    requires (forall k :: 0 <= k < |at| ==> at[k] < |vec|) && i < |vec|
    ensures Gathered(vec, at + [i]) == Gathered(vec, at) + ToSet(vec[i])
  {
    assert (at + [i])[..|at|] == at;
  }

  lemma {:induction false} GatheredHas(vec: seq<seq<int>>, at: seq<nat>, i: nat)
    requires (forall k :: 0 <= k < |at| ==> at[k] < |vec|) && i in at
    ensures ToSet(vec[i]) <= Gathered(vec, at)
  {
    if at[|at| - 1] != i {
      assert at == at[..|at| - 1] + [at[|at| - 1]];
      GatheredHas(vec, at[..|at| - 1], i);
    }
  }

  /** How many elements two entries have together but, as far as can be seen, not in common. */
  ghost function Waste(vec: seq<seq<int>>, i: nat, j: nat): int
    requires i < |vec| && j < |vec|
  {
    |ToSet(vec[i]) + ToSet(vec[j])| - |Common(ToSet(vec[i]), ToSet(vec[j]))|
  }

  /** The waste is the number of elements that only one of them has, and one more if 1 is lost. */
  lemma {:induction false} WasteIs(vec: seq<seq<int>>, i: nat, j: nat)
    requires i < |vec| && j < |vec|
    ensures var A, B := ToSet(vec[i]), ToSet(vec[j]);
      Waste(vec, i, j) == |A - B| + |B - A| + if Lost(A, B) then 1 else 0
  {
    hide ToSet, Lost;
    var A, B := ToSet(vec[i]), ToSet(vec[j]);
    assert A + B == (A - B) + (B - A) + A * B;
    LostCommon(A, B);
  }

  lemma {:induction false} LostCommon(A: set<int>, B: set<int>)
    ensures |Common(A, B)| == |A * B| - if Lost(A, B) then 1 else 0
  {
    if Lost(A, B) {
      assert 1 in A * B && Common(A, B) == A * B - {1};
    }
  }

  /** Of the pairs before (i, j), row by row, the seeds waste most, and the earlier ones less. */
  ghost predicate Leads(vec: seq<seq<int>>, i: nat, j: nat, seed1: nat, seed2: nat) {
    var maxoff := |vec| - 2;
    && 1 <= seed1 < seed2 <= maxoff && (seed1 < i || (seed1 == i && seed2 < j))
    && (forall p, q :: 1 <= p < q <= maxoff && (p < i || (p == i && q < j)) ==> Waste(vec, p, q) <= Waste(vec, seed1, seed2))
    && (forall p, q :: 1 <= p < q <= maxoff && (p < seed1 || (p == seed1 && q < seed2)) ==> Waste(vec, p, q) < Waste(vec, seed1, seed2))
  }

  /** rt__int_size of the union less that of the intersection. */
  method PairWaste(vec: seq<seq<int>>, i: nat, j: nat) returns (w: real)
    requires i < |vec| && j < |vec| && Strict(vec[i]) && Strict(vec[j])
    ensures w == Waste(vec, i, j) as real
  {
    hide Strict, Sorted, ToSet, Common;
    StrictSorted(vec[i]);
    StrictSorted(vec[j]);
    var u := Union(vec[i], vec[j]);
    var d := InnerInter(vec[i], vec[j]);
    StrictCard(u);
    StrictCard(d);
    w := |u| as real - |d| as real;
  }

  /** The search for the two entries that waste most together, the first such pair. */
  method PickSeeds(vec: seq<seq<int>>) returns (seed1: nat, seed2: nat)
    requires |vec| >= 3 && forall i :: 1 <= i < |vec| ==> Strict(vec[i])
    ensures 1 <= seed1 < seed2 < |vec| && (|vec| > 3 ==> seed2 <= |vec| - 2) && (|vec| == 3 ==> (seed1, seed2) == (1, 2))
    ensures forall i, j :: 1 <= i < j <= |vec| - 2 ==> Waste(vec, i, j) <= Waste(vec, seed1, seed2)
    ensures forall i, j :: 1 <= i < j <= |vec| - 2 && (i < seed1 || (i == seed1 && j < seed2)) ==> Waste(vec, i, j) < Waste(vec, seed1, seed2)
  {
    hide Strict, Waste;
    var maxoff := |vec| - 2;
    var firsttime, most := true, 0.0;
    seed1, seed2 := 0, 0;
    var i := 1;
    while i < maxoff
      invariant 1 <= i && (i < maxoff || i == maxoff || maxoff == 1) && firsttime == (i == 1)
      invariant firsttime ==> seed1 == 0 == seed2
      invariant !firsttime ==> Leads(vec, i, i + 1, seed1, seed2) && most == Waste(vec, seed1, seed2) as real
    {
      var j := i + 1;
      while j <= maxoff
        invariant i < j <= maxoff + 1 && i < maxoff && firsttime == (i == 1 && j == 2)
        invariant firsttime ==> seed1 == 0 == seed2
        invariant !firsttime ==> Leads(vec, i, j, seed1, seed2) && most == Waste(vec, seed1, seed2) as real
      {
        var w := PairWaste(vec, i, j);
        if w > most || firsttime {
          most := w;
          seed1, seed2 := i, j;
          firsttime := false;
        }
        j := j + 1;
      }
      i := i + 1;
    }
    if seed1 == 0 || seed2 == 0 {
      seed1, seed2 := 1, 2;
    }
  }

  ghost predicate Cheapest(t: seq<SplitCost>) {
    forall i, j :: 0 <= i < j < |t| ==> t[i].cost <= t[j].cost
  }

  method InsertCost(t: seq<SplitCost>, x: SplitCost) returns (u: seq<SplitCost>)
    requires Cheapest(t)
    ensures Cheapest(u) && multiset(u) == multiset(t) + multiset{x}
  {
    var p := |t|;
    while p > 0 && t[p - 1].cost > x.cost
      invariant 0 <= p <= |t| && forall i :: p <= i < |t| ==> t[i].cost > x.cost
    {
      p := p - 1;
    }
    InsertedCost(t, x, p);
    u := t[..p] + [x] + t[p..];
  }

  lemma {:induction false} InsertedCost(t: seq<SplitCost>, x: SplitCost, p: nat)
    requires p <= |t|
    ensures multiset(t[..p] + [x] + t[p..]) == multiset(t) + multiset{x}
  {
    assert t == t[..p] + t[p..];
  }

  /** qsort with comparecost: the same positions, cheapest first. */
  method SortCosts(s: seq<SplitCost>) returns (t: seq<SplitCost>)
    ensures multiset(t) == multiset(s) && Cheapest(t)
  {
    hide Cheapest;
    t := [];
    CheapestNone();
    for k := 0 to |s|
      invariant multiset(t) == multiset(s[..k]) && Cheapest(t)
    {
      assert s[..k + 1] == s[..k] + [s[k]];
      t := InsertCost(t, s[k]);
    }
    assert s[..|s|] == s;
  }

  lemma {:induction false} CheapestNone()
    ensures Cheapest([])
  {
  }

  /** One side of a split: its key has the elements of its entries, and of its seed. */
  ghost predicate Side(vec: seq<seq<int>>, at: seq<nat>, datum: seq<int>, seed: nat) {
    && (forall k :: 0 <= k < |at| ==> at[k] < |vec|) && seed < |vec|
    && Strict(datum) && ToSet(datum) == Gathered(vec, at) + ToSet(vec[seed])
  }

  lemma {:induction false} SideSeed(vec: seq<seq<int>>, at: seq<nat>, datum: seq<int>, seed: nat)
    requires Side(vec, at, datum, seed)
    ensures Side(vec, at + [seed], datum, seed)
  {
    GatheredSnoc(vec, at, seed);
  }

  lemma {:induction false} SideGrows(vec: seq<seq<int>>, at: seq<nat>, datum: seq<int>, seed: nat, i: nat, grown: seq<int>)
    requires Side(vec, at, datum, seed) && i < |vec| && Strict(grown) && ToSet(grown) == ToSet(datum) + ToSet(vec[i])
    ensures Side(vec, at + [i], grown, seed)
  {
    GatheredSnoc(vec, at, i);
  }

  lemma {:induction false} SideDone(vec: seq<seq<int>>, at: seq<nat>, datum: seq<int>, seed: nat)
    requires Side(vec, at, datum, seed) && seed in at
    ensures ToSet(datum) == Gathered(vec, at)
  {
    GatheredHas(vec, at, seed);
  }

  /** How many elements of A a side with the elements D lacks. */
  ghost function Growth(A: set<int>, D: set<int>): int { |A - D| }

  lemma {:induction false} StrictCard(s: seq<int>)
    requires Strict(s)
    ensures |ToSet(s)| == |s|
  {
    if s != [] {
      var r, x := s[..|s| - 1], s[|s| - 1];
      assert s == r + [x] && x !in r;
      StrictCard(r);
      assert ToSet(s) == ToSet(r) + {x};
    }
  }

  /** A union is longer than a side by what the side lacks. */
  lemma {:induction false} UnionGrows(d: seq<int>, a: seq<int>, u: seq<int>)
    requires Strict(d) && Strict(u) && ToSet(u) == ToSet(d) + ToSet(a)
    ensures |u| - |d| == Growth(ToSet(a), ToSet(d))
  {
    hide Strict, ToSet;
    StrictCard(d);
    StrictCard(u);
    var D, A := ToSet(d), ToSet(a);
    assert D + A == D + (A - D);
  }

  ghost function Apart(x: int, y: int): int { if x < y then y - x else x - y }

  /** How differently the sides dl and dr would grow by an entry. */
  ghost function Preference(a: seq<int>, dl: seq<int>, dr: seq<int>): int {
    Apart(Growth(ToSet(a), ToSet(dl)), Growth(ToSet(a), ToSet(dr)))
  }

  /** The cost of every entry: how much more one side would grow than the other. */
  method Costs(vec: seq<seq<int>>, dl: seq<int>, dr: seq<int>) returns (c: seq<SplitCost>)
    requires |vec| >= 1 && (forall i :: 1 <= i < |vec| ==> Strict(vec[i])) && Strict(dl) && Strict(dr)
    ensures |c| == |vec| - 1
    ensures forall i :: 0 <= i < |c| ==> c[i].pos == i + 1 && c[i].cost == Preference(vec[i + 1], dl, dr) as real
  {
    hide Strict, Sorted, ToSet, Growth;
    c := [];
    StrictSorted(dl);
    StrictSorted(dr);
    for i := 1 to |vec|
      invariant |c| == i - 1
      invariant forall k :: 0 <= k < |c| ==> c[k].pos == k + 1 && c[k].cost == Preference(vec[k + 1], dl, dr) as real
    {
      StrictSorted(vec[i]);
      var ul := Union(dl, vec[i]);
      var ur := Union(dr, vec[i]);
      UnionGrows(dl, vec[i], ul);
      UnionGrows(dr, vec[i], ur);
      var d := (|ul| - |dl|) as real - (|ur| - |dr|) as real;
      c := c + [SplitCost(i, if d < 0.0 then -d else d)];
    }
  }

  /** WISH_F(a, b, 0.01). */
  function Wish(a: nat, b: nat): real {
    var d := a as real - b as real;
    -(d * d * d) * 0.01
  }

  /** The bonus for the side with fewer entries: a hundredth of the third power of the difference. */
  lemma {:induction false} WishIs(a: nat, b: nat)
    ensures Wish(a, b) == ((b as real - a as real) * (b as real - a as real)) * (b as real - a as real) / 100.0
    ensures Wish(a, b) > 0.0 <==> a < b
  {
    var d := a as real - b as real;
    Cubes(d);
  }

  lemma {:induction false} Cubes(d: real)
    ensures (-d * -d) * -d == -(d * d * d) && (d * d * d > 0.0 <==> d > 0.0)
  {
  }

  /** What a side holds that was grown from a seed. */
  ghost function Held(vec: seq<seq<int>>, at: seq<nat>, seed: nat): set<int>
    requires (forall k :: 0 <= k < |at| ==> at[k] < |vec|) && seed < |vec|
  {
    Gathered(vec, at) + ToSet(vec[seed])
  }

  /** Where the next entry goes: a seed to its side, any other to the side that lacks less of it, with the bonus. */
  ghost predicate GoesLeft(vec: seq<seq<int>>, seed1: nat, seed2: nat, left: seq<nat>, right: seq<nat>, i: nat)
    requires (forall k :: 0 <= k < |left| ==> left[k] < |vec|) && (forall k :: 0 <= k < |right| ==> right[k] < |vec|)
    requires seed1 < |vec| && seed2 < |vec| && i < |vec|
  {
    i == seed1 || (i != seed2 &&
      Growth(ToSet(vec[i]), Held(vec, left, seed1)) as real
        < Growth(ToSet(vec[i]), Held(vec, right, seed2)) as real + Wish(|left|, |right|))
  }

  /** Both sides after entries were dealt in some order. */
  ghost function SidesOf(vec: seq<seq<int>>, seed1: nat, seed2: nat, order: seq<nat>): (s: (seq<nat>, seq<nat>))
    requires (forall k :: 0 <= k < |order| ==> order[k] < |vec|) && seed1 < |vec| && seed2 < |vec|
    ensures (forall k :: 0 <= k < |s.0| ==> s.0[k] < |vec|) && (forall k :: 0 <= k < |s.1| ==> s.1[k] < |vec|)
  {
    if order == [] then ([], [])
    else
      var i := order[|order| - 1];
      var (left, right) := SidesOf(vec, seed1, seed2, order[..|order| - 1]);
      if GoesLeft(vec, seed1, seed2, left, right, i) then (left + [i], right) else (left, right + [i])
  }

  lemma {:induction false} SidesStep(vec: seq<seq<int>>, seed1: nat, seed2: nat, order: seq<nat>, i: nat)
    requires (forall k :: 0 <= k < |order| ==> order[k] < |vec|) && seed1 < |vec| && seed2 < |vec| && i < |vec|
    ensures (forall k :: 0 <= k < |order + [i]| ==> (order + [i])[k] < |vec|)
    ensures SidesOf(vec, seed1, seed2, order + [i]) ==
      var (left, right) := SidesOf(vec, seed1, seed2, order);
      if GoesLeft(vec, seed1, seed2, left, right, i) then (left + [i], right) else (left, right + [i])
  {
    assert (order + [i])[..|order|] == order;
  }

  /** The sides grown so far hold the entries dealt with, each once. */
  ghost predicate Dealt(order: seq<SplitCost>, j: nat, left: seq<nat>, right: seq<nat>) {
    j <= |order| && multiset(left) + multiset(right) == multiset(PositionsOf(order[..j]))
  }

  lemma {:induction false} DealtStep(order: seq<SplitCost>, j: nat, left: seq<nat>, right: seq<nat>)
    requires Dealt(order, j, left, right) && j < |order|
    ensures Dealt(order, j + 1, left + [order[j].pos], right) && Dealt(order, j + 1, left, right + [order[j].pos])
  {
    assert PositionsOf(order[..j + 1]) == PositionsOf(order[..j]) + [order[j].pos];
  }

  /** The side an entry goes to. */
  method Place(vec: seq<seq<int>>, i: nat, left: seq<nat>, right: seq<nat>, dl: seq<int>, dr: seq<int>, seed1: nat, seed2: nat)
      returns (left': seq<nat>, right': seq<nat>, dl': seq<int>, dr': seq<int>)
    requires i < |vec| && Side(vec, left, dl, seed1) && Side(vec, right, dr, seed2) && Strict(vec[i])
    ensures Side(vec, left', dl', seed1) && Side(vec, right', dr', seed2)
    ensures (forall k :: 0 <= k < |left| ==> left[k] < |vec|) && (forall k :: 0 <= k < |right| ==> right[k] < |vec|)
    ensures seed1 < |vec| && seed2 < |vec|
    ensures (left', right') == if GoesLeft(vec, seed1, seed2, left, right, i) then (left + [i], right) else (left, right + [i])
  {
    hide Strict, Sorted, ToSet, Gathered, Side, Growth, Wish;
    SideHeld(vec, left, dl, seed1);
    SideHeld(vec, right, dr, seed2);
    left', right', dl', dr' := left, right, dl, dr;
    SideStrict(vec, left, dl, seed1);
    SideStrict(vec, right, dr, seed2);
    StrictSorted(vec[i]);
    if i == seed1 {
      SideSeed(vec, left, dl, seed1);
      left' := left + [i];
      return;
    } else if i == seed2 {
      SideSeed(vec, right, dr, seed2);
      right' := right + [i];
      return;
    }
    var ul := Union(dl, vec[i]);
    var ur := Union(dr, vec[i]);
    UnionGrows(dl, vec[i], ul);
    UnionGrows(dr, vec[i], ur);
    if (|ul| - |dl|) as real < (|ur| - |dr|) as real + Wish(|left|, |right|) {
      SideGrows(vec, left, dl, seed1, i, ul);
      dl', left' := ul, left + [i];
    } else {
      SideGrows(vec, right, dr, seed2, i, ur);
      dr', right' := ur, right + [i];
    }
  }

  lemma {:induction false} SideHeld(vec: seq<seq<int>>, at: seq<nat>, datum: seq<int>, seed: nat)
    requires Side(vec, at, datum, seed)
    ensures (forall k :: 0 <= k < |at| ==> at[k] < |vec|) && seed < |vec| && ToSet(datum) == Held(vec, at, seed)
  {
  }

  lemma {:induction false} SideStrict(vec: seq<seq<int>>, at: seq<nat>, datum: seq<int>, seed: nat)
    requires Side(vec, at, datum, seed)
    ensures Strict(datum) && Sorted(datum)
  {
  }

  lemma {:induction false} SideStarts(vec: seq<seq<int>>, seed: nat)
    requires seed < |vec| && Strict(vec[seed])
    ensures Side(vec, [], vec[seed], seed)
  {
  }

  /** The entries 1 .. n - 1, each once. */
  ghost function AllPositions(n: nat): seq<nat>
    requires n >= 1
  {
    seq(n - 1, i requires 0 <= i < n - 1 => i + 1)
  }

  lemma {:induction false} SortedPositions(c: seq<SplitCost>, t: seq<SplitCost>, n: nat)
    requires n >= 1 && |c| == n - 1 && (forall i :: 0 <= i < |c| ==> c[i].pos == i + 1) && multiset(t) == multiset(c)
    ensures |t| == |c| && multiset(PositionsOf(t)) == multiset(AllPositions(n))
    ensures forall i :: 0 <= i < |t| ==> 1 <= t[i].pos < n
  {
    assert |multiset(t)| == |t| && |multiset(c)| == |c|;
    assert PositionsOf(c) == AllPositions(n);
    SamePositions(c, t);
    forall i | 0 <= i < |t| ensures 1 <= t[i].pos < n {
      assert t[i] in multiset(t);
      assert t[i] in c;
    }
  }

  lemma {:induction false} SamePositions(s: seq<SplitCost>, t: seq<SplitCost>)
    requires multiset(s) == multiset(t)
    ensures multiset(PositionsOf(s)) == multiset(PositionsOf(t))
    decreases |s|
  {
    hide PositionsOf;
    assert |multiset(s)| == |s| && |multiset(t)| == |t|;
    if s != [] {
      var x := s[|s| - 1];
      assert x in multiset(t);
      var k :| 0 <= k < |t| && t[k] == x;
      TakenOut(s, |s| - 1);
      TakenOut(t, k);
      SamePositions(Removed(s, |s| - 1), Removed(t, k));
    } else {
      assert t == [];
    }
  }

  ghost function Removed(s: seq<SplitCost>, k: nat): seq<SplitCost>
    requires k < |s|
  {
    s[..k] + s[k + 1..]
  }

  lemma {:induction false} TakenOut(s: seq<SplitCost>, k: nat)
    requires k < |s|
    ensures multiset(Removed(s, k)) == multiset(s) - multiset{s[k]}
    ensures multiset(PositionsOf(s)) == multiset(PositionsOf(Removed(s, k))) + multiset{s[k].pos}
  {
    assert s == s[..k] + [s[k]] + s[k + 1..];
    var a, b := PositionsOf(s[..k]), PositionsOf(s[k + 1..]);
    assert PositionsOf(s) == a + [s[k].pos] + b;
    assert PositionsOf(Removed(s, k)) == a + b;
  }

  /** The entries in the order they are dealt: those with the least preference for one of the seeds first. */
  ghost predicate Ordered(vec: seq<seq<int>>, seed1: nat, seed2: nat, order: seq<nat>)
    requires seed1 < |vec| && seed2 < |vec|
  {
    && (forall k :: 0 <= k < |order| ==> order[k] < |vec|)
    && forall k, l :: 0 <= k < l < |order| ==>
         Preference(vec[order[k]], vec[seed1], vec[seed2]) <= Preference(vec[order[l]], vec[seed1], vec[seed2])
  }

  /** The costs sorted are the entries in that order. */
  lemma {:induction false} SortedOrder(vec: seq<seq<int>>, seed1: nat, seed2: nat, c: seq<SplitCost>, t: seq<SplitCost>)
    requires seed1 < |vec| && seed2 < |vec| && |c| == |vec| - 1 && multiset(t) == multiset(c) && Cheapest(t)
    requires forall i :: 0 <= i < |c| ==> c[i].pos == i + 1 && c[i].cost == Preference(vec[i + 1], vec[seed1], vec[seed2]) as real
    ensures Ordered(vec, seed1, seed2, PositionsOf(t))
  {
    hide Preference;
    forall k | 0 <= k < |t|
      ensures t[k].pos < |vec| && t[k].cost == Preference(vec[t[k].pos], vec[seed1], vec[seed2]) as real
    {
      assert t[k] in multiset(t);
      assert t[k] in c;
    }
  }

  /** g_int_picksplit: the seeds are the first two entries that waste most together; the entries are dealt in the order of their
      preference, each to the side that lacks less of it; no side is empty, and each side's key is the union of its entries. */
  method PickSplit(vec: seq<seq<int>>)
      returns (left: seq<nat>, right: seq<nat>, dl: seq<int>, dr: seq<int>, ghost seed1: nat, ghost seed2: nat, ghost order: seq<nat>)
    requires |vec| >= 3 && forall i :: 1 <= i < |vec| ==> Strict(vec[i])
    ensures 1 <= seed1 < seed2 < |vec| && (|vec| == 3 ==> (seed1, seed2) == (1, 2))
    ensures forall i, j :: 1 <= i < j <= |vec| - 2 ==> Waste(vec, i, j) <= Waste(vec, seed1, seed2)
    ensures forall i, j :: 1 <= i < j <= |vec| - 2 && (i < seed1 || (i == seed1 && j < seed2)) ==> Waste(vec, i, j) < Waste(vec, seed1, seed2)
    ensures Ordered(vec, seed1, seed2, order) && multiset(order) == multiset(AllPositions(|vec|))
    ensures (left, right) == SidesOf(vec, seed1, seed2, order)
    ensures multiset(left) + multiset(right) == multiset(AllPositions(|vec|)) && left != [] && right != []
    ensures (forall k :: 0 <= k < |left| ==> left[k] < |vec|) && (forall k :: 0 <= k < |right| ==> right[k] < |vec|)
    ensures Strict(dl) && ToSet(dl) == Gathered(vec, left) && Strict(dr) && ToSet(dr) == Gathered(vec, right)
  {
    hide Strict, ToSet, Gathered, Side, Dealt, AllPositions, PositionsOf, Preference, SidesOf, GoesLeft, Cheapest, Ordered, Waste;
    var n := |vec|;
    var s1, s2 := PickSeeds(vec);
    seed1, seed2 := s1, s2;
    left, right, dl, dr := [], [], vec[s1], vec[s2];
    SideStarts(vec, seed1);
    SideStarts(vec, seed2);
    var costs := Costs(vec, dl, dr);
    var sorted := SortCosts(costs);
    SortedPositions(costs, sorted, n);
    SortedOrder(vec, seed1, seed2, costs, sorted);
    order := PositionsOf(sorted);
    NothingDealt(sorted);
    NothingOnSides(vec, seed1, seed2, sorted);
    for j := 0 to |sorted|
      invariant Dealt(sorted, j, left, right) && Side(vec, left, dl, seed1) && Side(vec, right, dr, seed2)
      invariant SidesAfter(vec, seed1, seed2, sorted, j, left, right)
    {
      DealtStep(sorted, j, left, right);
      SidesNext(vec, seed1, seed2, sorted, j, left, right);
      left, right, dl, dr := Place(vec, sorted[j].pos, left, right, dl, dr, s1, s2);
    }
    AllOnSides(vec, seed1, seed2, sorted, left, right);
    AllDealt(sorted, left, right, n);
    Occurs(order, n, seed1);
    Occurs(order, n, seed2);
    SeedsPlaced(vec, seed1, seed2, order);
    SideStrict(vec, left, dl, seed1);
    SideStrict(vec, right, dr, seed2);
    SideBounds(vec, left, dl, seed1);
    SideBounds(vec, right, dr, seed2);
    SideDone(vec, left, dl, seed1);
    SideDone(vec, right, dr, seed2);
  }

  /** Both sides after j entries. */
  ghost predicate SidesAfter(vec: seq<seq<int>>, seed1: nat, seed2: nat, sorted: seq<SplitCost>, j: nat, left: seq<nat>, right: seq<nat>) {
    && j <= |sorted| && seed1 < |vec| && seed2 < |vec| && (forall k :: 0 <= k < |sorted| ==> sorted[k].pos < |vec|)
    && (left, right) == SidesOf(vec, seed1, seed2, PositionsOf(sorted[..j]))
  }

  lemma {:induction false} NothingOnSides(vec: seq<seq<int>>, seed1: nat, seed2: nat, sorted: seq<SplitCost>)
    requires seed1 < |vec| && seed2 < |vec| && forall k :: 0 <= k < |sorted| ==> sorted[k].pos < |vec|
    ensures SidesAfter(vec, seed1, seed2, sorted, 0, [], [])
  {
  }

  lemma {:induction false} SidesNext(vec: seq<seq<int>>, seed1: nat, seed2: nat, sorted: seq<SplitCost>, j: nat, left: seq<nat>, right: seq<nat>)
    requires SidesAfter(vec, seed1, seed2, sorted, j, left, right) && j < |sorted|
    ensures (forall k :: 0 <= k < |left| ==> left[k] < |vec|) && (forall k :: 0 <= k < |right| ==> right[k] < |vec|)
    ensures seed1 < |vec| && seed2 < |vec| && sorted[j].pos < |vec|
    ensures var i := sorted[j].pos;
      if GoesLeft(vec, seed1, seed2, left, right, i) then SidesAfter(vec, seed1, seed2, sorted, j + 1, left + [i], right)
      else SidesAfter(vec, seed1, seed2, sorted, j + 1, left, right + [i])
  {
    hide GoesLeft;
    assert PositionsOf(sorted[..j + 1]) == PositionsOf(sorted[..j]) + [sorted[j].pos];
    SidesStep(vec, seed1, seed2, PositionsOf(sorted[..j]), sorted[j].pos);
  }

  lemma {:induction false} AllOnSides(vec: seq<seq<int>>, seed1: nat, seed2: nat, sorted: seq<SplitCost>, left: seq<nat>, right: seq<nat>)
    requires SidesAfter(vec, seed1, seed2, sorted, |sorted|, left, right)
    ensures (forall k :: 0 <= k < |PositionsOf(sorted)| ==> PositionsOf(sorted)[k] < |vec|) && seed1 < |vec| && seed2 < |vec|
    ensures (left, right) == SidesOf(vec, seed1, seed2, PositionsOf(sorted))
  {
    assert sorted[..|sorted|] == sorted;
  }

  lemma {:induction false} SeedsChoose(vec: seq<seq<int>>, seed1: nat, seed2: nat, left: seq<nat>, right: seq<nat>)
    requires (forall k :: 0 <= k < |left| ==> left[k] < |vec|) && (forall k :: 0 <= k < |right| ==> right[k] < |vec|)
    requires seed1 < |vec| && seed2 < |vec| && seed1 != seed2
    ensures GoesLeft(vec, seed1, seed2, left, right, seed1) && !GoesLeft(vec, seed1, seed2, left, right, seed2)
  {
  }

  /** The seeds are on their sides once they have been dealt. */
  lemma {:induction false} SeedsPlaced(vec: seq<seq<int>>, seed1: nat, seed2: nat, order: seq<nat>)
    requires (forall k :: 0 <= k < |order| ==> order[k] < |vec|) && seed1 < |vec| && seed2 < |vec| && seed1 != seed2
    ensures seed1 in order ==> seed1 in SidesOf(vec, seed1, seed2, order).0
    ensures seed2 in order ==> seed2 in SidesOf(vec, seed1, seed2, order).1
  {
    hide GoesLeft;
    if order != [] {
      var rest, i := order[..|order| - 1], order[|order| - 1];
      assert order == rest + [i];
      var (l, r) := SidesOf(vec, seed1, seed2, rest);
      SeedsPlaced(vec, seed1, seed2, rest);
      SeedsChoose(vec, seed1, seed2, l, r);
    }
  }

  lemma {:induction false} SideBounds(vec: seq<seq<int>>, at: seq<nat>, datum: seq<int>, seed: nat)
    requires Side(vec, at, datum, seed)
    ensures forall k :: 0 <= k < |at| ==> at[k] < |vec|
  {
  }

  lemma {:induction false} NothingDealt(order: seq<SplitCost>)
    ensures Dealt(order, 0, [], [])
  {
  }

  lemma {:induction false} AllDealt(order: seq<SplitCost>, left: seq<nat>, right: seq<nat>, n: nat)
    requires n >= 1 && Dealt(order, |order|, left, right) && multiset(PositionsOf(order)) == multiset(AllPositions(n))
    ensures multiset(left) + multiset(right) == multiset(AllPositions(n))
  {
    assert order[..|order|] == order;
  }

  lemma {:induction false} Occurs(order: seq<nat>, n: nat, i: nat)
    requires n >= 1 && 1 <= i < n && multiset(order) == multiset(AllPositions(n))
    ensures i in order
  {
    assert AllPositions(n)[i - 1] == i;
    assert i in multiset(order);
  }

  // ---- Inner keys ---------------------------------------------------------

  lemma {:induction false} ShownSmall(key: seq<int4>, v: int)
    requires Decompressible(key) && v in Elements(key)
    ensures -0x8000_0000 <= v < 0x8000_0000
  {
    if |key| >= 2 * MAXNUMRANGE {
      ExpandHas(key, v);
      var k :| 0 <= 2 * k < |key| - 1 && key[2 * k] <= v <= key[2 * k + 1];
    } else {
      var i :| 0 <= i < |key| && key[i] == v;
    }
  }

  /** u lists the elements that some key shows, in strict order. */
  ghost predicate Merges(u: seq<int>, keys: seq<seq<int>>) {
    Strict(u) && forall v :: v in ToSet(u) <==> exists i :: 0 <= i < |keys| && v in Elements(keys[i])
  }

  /** What is stored for u, and when it can be shown again. */
  ghost predicate StoredFor(u: seq<int>, key: seq<int>) {
    && StoredAs(u, key)
    && (Decompressible(key) <==>
         |u| < 2 * MAXNUMRANGE || (u[|u| - 1] < 0x7fff_ffff && |key| % 2 == 0 && RangeList(key) && |Expand(key)| < 0x8000_0000))
  }

  /** The key of an inner entry: the children's keys decompressed, united and compressed. Decompressing it ends in turn
      exactly when the union is short, or ends below 2^31 - 1 and its ranges hold less than 2^31 integers. */
  method InnerKey(keys: seq<seq<int4>>) returns (key: seq<int4>)
    requires forall i :: 0 <= i < |keys| ==> Decompressible(keys[i])
    ensures exists u :: Merges(u, keys) && StoredFor(u, key)
  {
    hide Strict, ToSet, Elements, RangeList, StoredAs, Decompressible, Expand;
    var shown: seq<seq<int>> := [];
    for i := 0 to |keys|
      invariant |shown| == i && forall k :: 0 <= k < i ==> ToSet(shown[k]) == Elements(keys[k])
    {
      ShowsElements(keys[i]);
      var s, n := Decompress(keys[i]);
      shown := shown + [s];
    }
    var all := GIntUnion(shown);
    UnionSmall(keys, shown, all);
    key := Compress(all);
    KeyShown(all, key);
    UnionMerges(keys, shown, all);
    ghost var u: seq<int> := all;
    assert Merges(u, keys) && StoredFor(u, key);
  }

  lemma {:induction false} UnionMerges(keys: seq<seq<int>>, shown: seq<seq<int>>, u: seq<int>)
    requires |shown| == |keys| && forall k :: 0 <= k < |keys| ==> ToSet(shown[k]) == Elements(keys[k])
    requires Strict(u) && ToSet(u) == UnionOf(shown)
    ensures Merges(u, keys)
  {
    hide Strict, ToSet, Elements;
    forall v ensures v in ToSet(u) <==> exists i :: 0 <= i < |keys| && v in Elements(keys[i]) {
      if v in ToSet(u) {
        UnionIn(shown, v);
        var i :| 0 <= i < |shown| && v in ToSet(shown[i]);
        assert v in Elements(keys[i]);
      }
      if i :| 0 <= i < |keys| && v in Elements(keys[i]) {
        UnionHas(shown, i);
        assert v in ToSet(shown[i]);
      }
    }
  }

  lemma {:induction false} ShowsElements(key: seq<int>)
    requires Decompressible(key)
    ensures |key| >= 2 * MAXNUMRANGE ==> RangeList(key) && key[|key| - 1] < 0x7fff_ffff
    ensures (|key| < 2 * MAXNUMRANGE || |key| % 2 == 0) && Elements(key) == ToSet(Shown(key))
  {
  }

  lemma {:induction false} KeyShown(u: seq<int>, key: seq<int>)
    requires StoredAs(u, key)
    ensures StoredFor(u, key)
  {
    if |u| >= 2 * MAXNUMRANGE {
      StoredDecompressible(u, key);
    }
  }

  lemma {:induction false} UnionIn(entries: seq<seq<int>>, v: int)
    requires v in UnionOf(entries)
    ensures exists i :: 0 <= i < |entries| && v in ToSet(entries[i])
  {
    if v !in ToSet(entries[|entries| - 1]) {
      UnionIn(entries[..|entries| - 1], v);
    }
  }

  lemma {:induction false} UnionSmall(keys: seq<seq<int4>>, shown: seq<seq<int>>, all: seq<int>)
    requires |shown| == |keys|
    requires forall k :: 0 <= k < |keys| ==> Decompressible(keys[k]) && ToSet(shown[k]) == Elements(keys[k])
    requires ToSet(all) == UnionOf(shown)
    ensures forall i :: 0 <= i < |all| ==> -0x8000_0000 <= all[i] < 0x8000_0000
  {
    hide Elements, Decompressible;
    forall i | 0 <= i < |all| ensures -0x8000_0000 <= all[i] < 0x8000_0000 {
      var v := all[i];
      assert v in ToSet(all);
      UnionIn(shown, v);
      var k :| 0 <= k < |shown| && v in ToSet(shown[k]);
      ShownSmall(keys[k], v);
    }
  }
}

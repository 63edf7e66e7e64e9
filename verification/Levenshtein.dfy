/** levenshtein: the two-row dynamic program and the edit scripts it measures. */
module Levenshtein {

  const MAX_STRLEN: nat := 255

  // ---- Edit scripts -------------------------------------------------------

  datatype Edit = Insert(pos: nat, c: char) | Delete(pos: nat) | Replace(pos: nat, c: char)

  predicate Applies(e: Edit, w: string) {
    if e.Insert? then e.pos <= |w| else e.pos < |w|
  }

  function Apply(e: Edit, w: string): string
    requires Applies(e, w)
  {
    match e
    case Insert(p, c) => w[..p] + [c] + w[p..]
    case Delete(p) => w[..p] + w[p + 1..]
    case Replace(p, c) => w[p := c]
  }

  /** The edits, made one after the other, at any places, turn s into t. */
  predicate Turns(script: seq<Edit>, s: string, t: string) {
    if script == [] then s == t
    else Applies(script[0], s) && Turns(script[1..], Apply(script[0], s), t)
  }

  /** n is the length of a shortest script from s to t. */
  ghost predicate IsDistance(s: string, t: string, n: nat) {
    && (exists script :: Turns(script, s, t) && |script| == n)
    && (forall script :: Turns(script, s, t) ==> n <= |script|)
  }

  lemma {:induction false} TurnsConcat(x: seq<Edit>, y: seq<Edit>, a: string, b: string, c: string)
    requires Turns(x, a, b) && Turns(y, b, c)
    ensures Turns(x + y, a, c)
  {
    hide Apply;
    if x == [] {
      assert x + y == y;
    } else {
      TurnsConcat(x[1..], y, Apply(x[0], a), b, c);
      assert (x + y)[1..] == x[1..] + y;
    }
  }

  lemma {:induction false} TurnsNone(s: string)
    ensures Turns([], s, s)
  {
  }

  lemma {:induction false} TurnsOne(e: Edit, s: string, t: string)
    requires Applies(e, s) && Apply(e, s) == t
    ensures Turns([e], s, t)
  {
    assert [e][1..] == [];
  }

  /** A script also works in front of a common last character. */
  lemma {:induction false} TurnsBefore(x: seq<Edit>, s: string, t: string, y: char)
    requires Turns(x, s, t)
    ensures Turns(x, s + [y], t + [y])
  {
    if x != [] {
      assert Apply(x[0], s + [y]) == Apply(x[0], s) + [y];
      TurnsBefore(x[1..], Apply(x[0], s), t, y);
    }
  }

  // ---- The recurrence -----------------------------------------------------

  function Init(s: string): string
    requires s != ""
  {
    s[..|s| - 1]
  }

  function Last(s: string): char
    requires s != ""
  {
    s[|s| - 1]
  }

  function Cost(a: char, b: char): nat { if a != b then 1 else 0 }

  function Least(a: nat, b: nat, c: nat): nat {
    if (if a < b then a else b) < c then (if a < b then a else b) else c
  }

  /** The cell of the source prefix s and the target prefix t. */
  function Cell(s: string, t: string): nat
    decreases |s| + |t|
  {
    if t == "" then |s|
    else if s == "" then |t|
    else Least(Cell(s, Init(t)) + 1, Cell(Init(s), t) + 1, Cell(Init(s), Init(t)) + Cost(Last(s), Last(t)))
  }

  /** A cell is at most one more than its neighbours. */
  lemma {:induction false} Neighbours(s: string, t: string)
    ensures s != "" ==> Cell(s, t) <= Cell(Init(s), t) + 1
    ensures t != "" ==> Cell(s, t) <= Cell(s, Init(t)) + 1
  {
  }

  /** One character more on the source side changes a cell by at most one. */
  lemma {:induction false} InsertClose(w: string, p: nat, c: char, t: string)
    requires p <= |w|
    ensures var w' := Apply(Insert(p, c), w); Cell(w, t) <= Cell(w', t) + 1 && Cell(w', t) <= Cell(w, t) + 1
    decreases |w| + |t|
  {
    hide Apply, Cell, Last, Least, Cost;
    var w' := Apply(Insert(p, c), w);
    InsertedParts(w, p, c);
    if t == "" {
      CellEdges(w);
      CellEdges(w');
    } else {
      var t' := Init(t);
      InsertClose(w, p, c, t');
      CellOf(w', t);
      Neighbours(w, t);
      if p == |w| {
        LeastNear(Cell(w', t') + 1, Cell(w, t) + 1, Cell(w, t') + Cost(Last(w'), Last(t)), Cell(w, t));
      } else {
        CellOf(w, t);
        InsertClose(Init(w), p, c, t);
        InsertClose(Init(w), p, c, t');
        LeastClose(Cell(w', t') + 1, Cell(w, t') + 1, Cell(Init(w'), t) + 1, Cell(Init(w), t) + 1,
                   Cell(Init(w'), t') + Cost(Last(w'), Last(t)), Cell(Init(w), t') + Cost(Last(w), Last(t)));
      }
    }
  }

  lemma {:induction false} CellEdges(w: string)
    ensures Cell(w, "") == |w|
  {
  }

  lemma {:induction false} InsertedParts(w: string, p: nat, c: char)
    requires p <= |w|
    ensures Applies(Insert(p, c), w)
    ensures var w' := Apply(Insert(p, c), w);
      && |w'| == |w| + 1 && w' != "" && |Init(w')| == |w|
      && (p == |w| ==> Init(w') == w)
      && (p < |w| ==> w != "" && |Init(w)| == |w| - 1 && Init(w') == Apply(Insert(p, c), Init(w)) && Last(w') == Last(w))
  {
  }

  /** A minimum is within one of a bound all candidates are within. */
  lemma {:induction false} LeastNear(x: nat, y: nat, z: nat, w: nat)
    requires w <= x + 1 && y == w + 1 && w <= z + 1
    ensures w <= Least(x, y, z) + 1 && Least(x, y, z) <= w + 1
  {
  }

  lemma {:induction false} LeastClose(x: nat, x': nat, y: nat, y': nat, z: nat, z': nat)
    requires x <= x' + 1 && x' <= x + 1 && y <= y' + 1 && y' <= y + 1 && z <= z' + 1 && z' <= z + 1
    ensures Least(x, y, z) <= Least(x', y', z') + 1 && Least(x', y', z') <= Least(x, y, z) + 1
  {
  }

  /** Another character on the source side changes a cell by at most one. */
  lemma {:induction false} ReplaceClose(w: string, p: nat, c: char, t: string)
    requires p < |w|
    ensures Cell(w, t) <= Cell(w[p := c], t) + 1
    decreases |w| + |t|
  {
    var w' := w[p := c];
    if t != "" {
      ReplaceClose(w, p, c, Init(t));
      if p == |w| - 1 {
        assert Init(w') == Init(w);
      } else {
        assert Init(w') == Init(w)[p := c] && Last(w') == Last(w);
        ReplaceClose(Init(w), p, c, t);
        ReplaceClose(Init(w), p, c, Init(t));
      }
    }
  }

  lemma {:induction false} EditClose(e: Edit, w: string, t: string)
    requires Applies(e, w)
    ensures Cell(w, t) <= Cell(Apply(e, w), t) + 1
  {
    match e
    case Insert(p, c) => InsertClose(w, p, c, t);
    case Delete(p) =>
      var w' := Apply(e, w);
      assert Apply(Insert(p, w[p]), w') == w;
      InsertClose(w', p, w[p], t);
    case Replace(p, c) => ReplaceClose(w, p, c, t);
  }

  lemma {:induction false} CellSelf(s: string)
    ensures Cell(s, s) == 0
  {
    if s != "" {
      CellSelf(Init(s));
    }
  }

  /** No script is shorter than the cell. */
  lemma {:induction false} CellIsLowerBound(script: seq<Edit>, s: string, t: string)
    requires Turns(script, s, t)
    ensures Cell(s, t) <= |script|
  {
    if script == [] {
      CellSelf(s);
    } else {
      EditClose(script[0], s, t);
      CellIsLowerBound(script[1..], Apply(script[0], s), t);
    }
  }

  lemma {:induction false} TurnsAfter(e: Edit, x: seq<Edit>, s: string, s': string, t: string)
    requires Applies(e, s) && Apply(e, s) == s' && Turns(x, s', t)
    ensures Turns([e] + x, s, t)
  {
    hide Apply;
    TurnsOne(e, s, s');
    TurnsConcat([e], x, s, s', t);
  }

  lemma {:induction false} InsertLast(x: seq<Edit>, s: string, t: string) returns (script: seq<Edit>)
    requires t != "" && Turns(x, s, Init(t))
    ensures Turns(script, s, t) && |script| == |x| + 1
  {
    var last := Insert(|t| - 1, Last(t));
    TurnsOne(last, Init(t), t);
    TurnsConcat(x, [last], s, Init(t), t);
    script := x + [last];
  }

  lemma {:induction false} InitLast(s: string, c: char)
    requires s != ""
    ensures Init(s) + [Last(s)] == s
    ensures Applies(Replace(|s| - 1, c), s) && Apply(Replace(|s| - 1, c), s) == Init(s) + [c]
  {
  }

  lemma {:induction false} MatchLast(x: seq<Edit>, s: string, t: string) returns (script: seq<Edit>)
    requires s != "" && t != "" && Turns(x, Init(s), Init(t))
    ensures Turns(script, s, t) && |script| == |x| + Cost(Last(s), Last(t))
  {
    hide Turns, Init, Last, Apply;
    TurnsBefore(x, Init(s), Init(t), Last(t));
    InitLast(s, Last(t));
    InitLast(t, Last(t));
    if Last(s) == Last(t) {
      script := x;
    } else {
      var e := Replace(|s| - 1, Last(t));
      TurnsAfter(e, x, s, Init(s) + [Last(t)], t);
      script := [e] + x;
    }
  }

  /** Some script is as short as the cell. */
  lemma {:induction false} CellIsReached(s: string, t: string) returns (script: seq<Edit>)
    ensures Turns(script, s, t) && |script| == Cell(s, t)
    decreases |s| + |t|
  {
    hide Turns;
    if s == "" && t == "" {
      script := [];
      TurnsNone(s);
    } else if t == "" || (s != "" && Cell(s, t) == Cell(Init(s), t) + 1) {
      var rest := CellIsReached(Init(s), t);
      var e := Delete(|s| - 1);
      TurnsAfter(e, rest, s, Init(s), t);
      script := [e] + rest;
    } else if s == "" || Cell(s, t) == Cell(s, Init(t)) + 1 {
      var rest := CellIsReached(s, Init(t));
      script := InsertLast(rest, s, t);
    } else {
      var rest := CellIsReached(Init(s), Init(t));
      script := MatchLast(rest, s, t);
    }
  }

  /** The cell is the edit distance. */
  lemma {:induction false} CellIsDistance(s: string, t: string)
    ensures IsDistance(s, t, Cell(s, t))
  {
    var script := CellIsReached(s, t);
    forall script | Turns(script, s, t) ensures Cell(s, t) <= |script| {
      CellIsLowerBound(script, s, t);
    }
  }

  // ---- The metric ---------------------------------------------------------

  lemma {:induction false} CellSym(s: string, t: string)
    ensures Cell(s, t) == Cell(t, s)
    decreases |s| + |t|
  {
    if s != "" && t != "" {
      CellSym(Init(s), t);
      CellSym(s, Init(t));
      CellSym(Init(s), Init(t));
    }
  }

  /** The distance is symmetric. */
  lemma {:induction false} Symmetric(s: string, t: string, n: nat)
    requires IsDistance(s, t, n)
    ensures IsDistance(t, s, n)
  {
    var script := CellIsReached(s, t);
    CellIsDistance(t, s);
    CellSym(s, t);
    var x :| Turns(x, s, t) && |x| == n;
    CellIsLowerBound(x, s, t);
  }

  /** Only equal strings are at distance zero. */
  lemma {:induction false} ZeroIffEqual(s: string, t: string)
    ensures IsDistance(s, t, 0) <==> s == t
  {
    if s == t {
      assert Turns([], s, t);
    }
  }

  /** A detour is never shorter. */
  lemma {:induction false} Triangle(a: string, b: string, c: string, m: nat, n: nat, k: nat)
    requires IsDistance(a, b, m) && IsDistance(b, c, n) && IsDistance(a, c, k)
    ensures k <= m + n
  {
    var x :| Turns(x, a, b) && |x| == m;
    var y :| Turns(y, b, c) && |y| == n;
    TurnsConcat(x, y, a, b, c);
  }

  // ---- The program --------------------------------------------------------

  datatype Answer = Distance(n: nat) | TooLong

  lemma {:induction false} Prefix(s: string, i: nat)
    requires 1 <= i <= |s|
    ensures s[..i] != "" && Init(s[..i]) == s[..i - 1] && Last(s[..i]) == s[i - 1]
  {
  }

  lemma {:induction false} CellOf(s: string, t: string)
    requires s != "" && t != ""
    ensures Cell(s, t) == Least(Cell(s, Init(t)) + 1, Cell(Init(s), t) + 1, Cell(Init(s), Init(t)) + Cost(Last(s), Last(t)))
  {
    hide Least, Cost, Init, Last;
  }

  lemma {:induction false} CellStep(s: string, t: string, i: nat, j: nat)
    requires 1 <= i <= |s| && 1 <= j <= |t|
    ensures Cell(s[..i], t[..j]) ==
      Least(Cell(s[..i], t[..j - 1]) + 1, Cell(s[..i - 1], t[..j]) + 1, Cell(s[..i - 1], t[..j - 1]) + Cost(s[i - 1], t[j - 1]))
  {
    hide Cell, Init, Last;
    Prefix(s, i);
    Prefix(t, j);
    CellOf(s[..i], t[..j]);
  }

  /** The cells of the first n columns of row j. */
  ghost predicate RowFilled(cells: seq<int>, s: string, t: string, j: nat, n: nat)
    requires j <= |t| && n <= |cells| && n <= |s| + 1
  {
    forall i :: 0 <= i < n ==> cells[i] == Cell(s[..i], t[..j])
  }

  /** The inner loop: one row from the row above it. */
  method FillRow(s: string, t: string, j: nat, u: array<int>, l: array<int>)
    requires 1 <= j <= |t| && u != l && u.Length == l.Length == |s| + 1
    requires RowFilled(u[..], s, t, j - 1, |s| + 1)
    modifies l
    ensures RowFilled(l[..], s, t, j, |s| + 1)
  {
    hide Cell;
    l[0] := j;
    EdgeCells(s, t, 0, j);
    var i := 1;
    while i < |s| + 1
      invariant 1 <= i <= |s| + 1
      invariant RowFilled(l[..], s, t, j, i)
    {
      var c := Cost(s[i - 1], t[j - 1]);
      var c1, c2, c3 := u[i] + 1, l[i - 1] + 1, u[i - 1] + c;
      CellStep(s, t, i, j);
      assert u[..][i] == Cell(s[..i], t[..j - 1]) && u[..][i - 1] == Cell(s[..i - 1], t[..j - 1]);
      assert l[..][i - 1] == Cell(s[..i - 1], t[..j]);
      ghost var row := l[..];
      l[i] := if (if c1 < c2 then c1 else c2) < c3 then (if c1 < c2 then c1 else c2) else c3;
      assert forall k :: 0 <= k < i ==> l[..][k] == row[k];
      i := i + 1;
    }
  }

  lemma {:induction false} EdgeCells(s: string, t: string, i: nat, j: nat)
    requires i <= |s| && j <= |t|
    ensures Cell(s[..0], t[..j]) == j && Cell(s[..i], t[..0]) == i
  {
  }

  /** levenshtein: the edit distance of strings up to the length limit. */
  method Levenshtein(s: string, t: string) returns (r: Answer)
    ensures r == TooLong <==> |s| > MAX_STRLEN || |t| > MAX_STRLEN
    ensures r.Distance? ==> IsDistance(s, t, r.n)
  {
    hide Cell, IsDistance;
    var cols, rows := |s| + 1, |t| + 1;
    if cols > MAX_STRLEN + 1 || rows > MAX_STRLEN + 1 {
      return TooLong;
    }
    var u := new int[cols];
    var i := 0;
    while i < cols
      invariant 0 <= i <= cols && RowFilled(u[..], s, t, 0, i)
    {
      EdgeCells(s, t, i, 0);
      ghost var row := u[..];
      u[i] := i;
      assert forall k :: 0 <= k < i ==> u[..][k] == row[k];
      i := i + 1;
    }
    var l := new int[cols];
    var j := 1;
    while j < rows
      invariant 1 <= j <= rows && u != l && u.Length == l.Length == cols && fresh(u) && fresh(l)
      invariant RowFilled(u[..], s, t, j - 1, cols)
    {
      FillRow(s, t, j, u, l);
      u, l := l, u;
      j := j + 1;
    }
    assert s[..|s|] == s && t[..|t|] == t && u[..][cols - 1] == Cell(s, t);
    CellIsDistance(s, t);
    r := Distance(u[cols - 1]);
  }
}

/** Evaluating a linked query on an array, on a signature and on the answers of an inverted index. */
module BoolExec {
  import opened BoolQuery
  import opened IntSets

  lemma {:induction false} Ends(items: seq<Item>, cur: int, s: seq<Item>, t: seq<Item>, x: Item)
    requires EndsAt(items, cur, s + t + [x])
    ensures 0 <= cur < |items| && items[cur] == x && EndsAt(items, cur - 1, t) && EndsAt(items, cur - 1 - |t|, s)
  {
    var w := s + t + [x];
    var u := items[cur + 1 - |w|..cur + 1];
    assert u[|w| - 1] == x && u[|s|..|s| + |t|] == t && u[..|s|] == s;
    assert items[cur - |t|..cur] == u[|s|..|s| + |t|];
    assert items[cur - |t| - |s|..cur - |t|] == u[..|s|];
  }

  lemma {:induction false} OperandsOf(items: seq<Item>, cur: int, q: Query)
    requires EndsAt(items, cur, Exact(q))
    ensures 0 <= cur < |items|
    ensures q.Val? ==> items[cur] == Item(Node(true, q.v), 0)
    ensures q.Not? ==> items[cur] == Item(Node(false, NOT), -1) && EndsAt(items, cur - 1, Exact(q.q))
    ensures q.And? || q.Or? ==>
      && items[cur] == Item(Node(false, if q.And? then AND else OR), -1 - |Nodes(q.r)|)
      && EndsAt(items, cur - 1, Exact(q.r)) && EndsAt(items, cur + items[cur].left, Exact(q.l))
  {
    hide EndsAt;
    if q.Val? {
      var x := Item(Node(true, q.v), 0);
      assert Exact(q) == [] + [] + [x];
      Ends(items, cur, [], [], x);
    } else if q.Not? {
      var x := Item(Node(false, NOT), -1);
      assert Exact(q) == [] + Exact(q.q) + [x];
      Ends(items, cur, [], Exact(q.q), x);
    } else {
      var x := Item(Node(false, if q.And? then AND else OR), -1 - |Nodes(q.r)|);
      assert Exact(q) == Exact(q.l) + Exact(q.r) + [x];
      Ends(items, cur, Exact(q.l), Exact(q.r), x);
    }
  }

  /** execute: follows the links from the item at cur; chk answers for the value at a position. */
  function Execute(items: seq<Item>, cur: int, calcnot: bool, chk: int -> bool, ghost q: Query): bool
    requires EndsAt(items, cur, Exact(q))
    decreases q
  {
    OperandsOf(items, cur, q);
    if items[cur].node.isVal then chk(cur)
    else if items[cur].node.val == NOT then
      if calcnot then !Execute(items, cur - 1, calcnot, chk, q.q) else true
    else if items[cur].node.val == AND then
      if Execute(items, cur + items[cur].left, calcnot, chk, q.l) then Execute(items, cur - 1, calcnot, chk, q.r) else false
    else
      if Execute(items, cur + items[cur].left, calcnot, chk, q.l) then true else Execute(items, cur - 1, calcnot, chk, q.r)
  }

  /** chk answers has for every value item. */
  ghost predicate Answers(items: seq<Item>, chk: int -> bool, has: int -> bool) {
    forall i :: 0 <= i < |items| && items[i].node.isVal ==> chk(i) == has(items[i].node.val)
  }

  /** Following the links gives the value of the tree, exact or with negations taken as true. */
  lemma {:induction false} ExecuteIsEval(items: seq<Item>, cur: int, calcnot: bool, chk: int -> bool, q: Query, has: int -> bool)
    requires EndsAt(items, cur, Exact(q)) && Answers(items, chk, has)
    ensures Execute(items, cur, calcnot, chk, q) == if calcnot then Eval(q, has) else Loose(q, has)
    decreases q
  {
    hide Exact, Linked, Nodes, EndsAt;
    OperandsOf(items, cur, q);
    match q
    case Val(v) =>
    case Not(p) => ExecuteIsEval(items, cur - 1, calcnot, chk, p, has);
    case And(l, r) =>
      ExecuteIsEval(items, cur + items[cur].left, calcnot, chk, l, has);
      ExecuteIsEval(items, cur - 1, calcnot, chk, r, has);
    case Or(l, r) =>
      ExecuteIsEval(items, cur + items[cur].left, calcnot, chk, l, has);
      ExecuteIsEval(items, cur - 1, calcnot, chk, r, has);
  }

  // ---- On an array --------------------------------------------------------

  /** checkcondition_arr: binary search. */
  method CheckArr(arr: seq<int>, val: int) returns (found: bool)
    requires Sorted(arr)
    ensures found <==> val in arr
  {
    var lo, hi := 0, |arr|;
    while lo < hi
      invariant 0 <= lo <= hi <= |arr|
      invariant forall i :: 0 <= i < lo ==> arr[i] < val
      invariant forall i :: hi <= i < |arr| ==> arr[i] > val
    {
      var mid := lo + (hi - lo) / 2;
      if arr[mid] == val {
        return true;
      } else if arr[mid] < val {
        lo := mid + 1;
      } else {
        hi := mid;
      }
    }
    return false;
  }

  /** A query in its linked postfix form. */
  ghost predicate IsQuery(items: seq<Item>, q: Query) {
    items == Exact(q)
  }

  lemma {:induction false} WholeQuery(items: seq<Item>, q: Query)
    requires IsQuery(items, q)
    ensures EndsAt(items, |items| - 1, Exact(q)) && |items| >= 1
  {
    assert items[0..] == items;
  }

  /** execconsistent: exact with calcnot, else with negations taken as true. */
  function ExecConsistent(items: seq<Item>, arr: seq<int>, calcnot: bool, ghost q: Query): bool
    requires IsQuery(items, q)
  {
    WholeQuery(items, q);
    Execute(items, |items| - 1, calcnot, i => if 0 <= i < |items| then items[i].node.val in arr else false, q)
  }

  lemma {:induction false} ExecConsistentIs(items: seq<Item>, arr: seq<int>, calcnot: bool, q: Query)
    requires IsQuery(items, q)
    ensures ExecConsistent(items, arr, calcnot, q) == if calcnot then Eval(q, x => x in arr) else Loose(q, x => x in arr)
  {
    hide Exact;
    WholeQuery(items, q);
    var chk := i => if 0 <= i < |items| then items[i].node.val in arr else false;
    var has := (x: int) => x in arr;
    ExecuteIsEval(items, |items| - 1, calcnot, chk, q, has);
  }

  /** Pruning is sound: a query true on an array is not rejected on any key that holds the array's elements. */
  lemma {:induction false} KeyNotRejected(items: seq<Item>, arr: seq<int>, key: seq<int>, q: Query)
    requires IsQuery(items, q) && ExecConsistent(items, arr, true, q) && ToSet(arr) <= ToSet(key)
    ensures ExecConsistent(items, key, false, q)
  {
    hide Exact, ExecConsistent;
    ExecConsistentIs(items, arr, true, q);
    ExecConsistentIs(items, key, false, q);
    var has, more := (x: int) => x in arr, (x: int) => x in key;
    forall v | has(v) ensures more(v) {
      assert v in ToSet(arr);
    }
    LooseIsSound(q, has, more);
  }

  // ---- On the answers of an inverted index --------------------------------

  /** ginint4_queryextract: the values of a query, in postfix order. */
  method QueryExtract(items: seq<Item>) returns (entries: seq<int>)
    ensures entries == Entries(items)
  {
    entries := [];
    for i := 0 to |items|
      invariant entries == Entries(items[..i])
    {
      assert items[..i + 1][..i] == items[..i];
      if items[i].node.isVal {
        entries := entries + [items[i].node.val];
      }
    }
    assert items[..|items|] == items;
  }

  function Entries(items: seq<Item>): seq<int> {
    if items == [] then []
    else Entries(items[..|items| - 1]) + (if items[|items| - 1].node.isVal then [items[|items| - 1].node.val] else [])
  }

  /** The answer to the j-th entry belongs to the j-th value item. */
  lemma {:induction false} EntryOf(items: seq<Item>, i: nat)
    requires i < |items| && items[i].node.isVal
    ensures |Entries(items[..i])| < |Entries(items)| && Entries(items)[|Entries(items[..i])|] == items[i].node.val
  {
    var last := |items| - 1;
    if i < last {
      EntryOf(items[..last], i);
      assert items[..last][..i] == items[..i];
    }
  }

  lemma {:induction false} EntriesStep(items: seq<Item>, i: nat)
    requires i < |items|
    ensures Entries(items[..i + 1]) == Entries(items[..i]) + (if items[i].node.isVal then [items[i].node.val] else [])
  {
    assert items[..i + 1][..i] == items[..i];
  }

  /** ginconsistent: the exact value, from one answer per extracted entry. */
  method GinConsistent(items: seq<Item>, check: seq<bool>, ghost q: Query, ghost has: int -> bool) returns (res: bool)
    requires IsQuery(items, q) && |check| == |Entries(items)|
    requires forall j :: 0 <= j < |check| ==> check[j] == has(Entries(items)[j])
    ensures res == Eval(q, has)
  {
    hide Exact, Entries, Execute;
    var mapped: seq<bool> := [];
    var j := 0;
    EntriesNone();
    assert items[..0] == [];
    for i := 0 to |items|
      invariant |mapped| == i && j == |Entries(items[..i])|
      invariant forall k :: 0 <= k < i && items[k].node.isVal ==> mapped[k] == has(items[k].node.val)
    {
      EntriesStep(items, i);
      if items[i].node.isVal {
        EntryOf(items, i);
        mapped := mapped + [check[j]];
        j := j + 1;
      } else {
        mapped := mapped + [false];
      }
    }
    WholeQuery(items, q);
    ghost var chk := (i: int) => if 0 <= i < |mapped| then mapped[i] else false;
    ExecuteIsEval(items, |items| - 1, true, chk, q, has);
    res := Execute(items, |items| - 1, true, i => if 0 <= i < |mapped| then mapped[i] else false, q);
  }

  lemma {:induction false} EntriesNone()
    ensures Entries([]) == []
  {
  }
}

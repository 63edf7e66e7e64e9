/** Boolean queries over integer arrays: the linked postfix form and its evaluation. */
module BoolQuery {

  const NOT: int := 33
  const AND: int := 38
  const OR: int := 124

  /** The tree a query stands for. */
  datatype Query = Val(v: int) | Not(q: Query) | And(l: Query, r: Query) | Or(l: Query, r: Query)

  /** The value of a query on the elements that has tells. */
  ghost function Eval(q: Query, has: int -> bool): bool {
    match q
    case Val(v) => has(v)
    case Not(p) => !Eval(p, has)
    case And(l, r) => Eval(l, has) && Eval(r, has)
    case Or(l, r) => Eval(l, has) || Eval(r, has)
  }

  /** The value when every negation counts as true. */
  ghost function Loose(q: Query, has: int -> bool): bool {
    match q
    case Val(v) => has(v)
    case Not(p) => true
    case And(l, r) => Loose(l, has) && Loose(r, has)
    case Or(l, r) => Loose(l, has) || Loose(r, has)
  }

  /** Whatever is true exactly is true loosely on every superset. */
  lemma {:induction false} LooseIsSound(q: Query, has: int -> bool, more: int -> bool)
    requires (forall v :: has(v) ==> more(v)) && Eval(q, has)
    ensures Loose(q, more)
  {
    match q
    case Val(v) =>
    case Not(p) =>
    case And(l, r) =>
      LooseIsSound(l, has, more);
      LooseIsSound(r, has, more);
    case Or(l, r) =>
      if Eval(l, has) {
        LooseIsSound(l, has, more);
      } else {
        LooseIsSound(r, has, more);
      }
  }

  // ---- The postfix form ---------------------------------------------------

  /** NODE: type and val. */
  datatype Node = Node(isVal: bool, val: int)

  /** ITEM: a node with the distance to its left operand. */
  datatype Item = Item(node: Node, left: int)

  function Nodes(q: Query): (s: seq<Node>)
    ensures |s| >= 1
  {
    match q
    case Val(v) => [Node(true, v)]
    case Not(p) => Nodes(p) + [Node(false, NOT)]
    case And(l, r) => Nodes(l) + Nodes(r) + [Node(false, AND)]
    case Or(l, r) => Nodes(l) + Nodes(r) + [Node(false, OR)]
  }

  /** A value kept in 16 bits. */
  function Wrap16(x: int): int { (x + 0x8000) % 0x1_0000 - 0x8000 }

  /** The items of a query, every link as keep stores it. */
  function Linked(q: Query, keep: int -> int): (s: seq<Item>)
    ensures |s| == |Nodes(q)|
  {
    match q
    case Val(v) => [Item(Node(true, v), 0)]
    case Not(p) => Linked(p, keep) + [Item(Node(false, NOT), -1)]
    case And(l, r) => Linked(l, keep) + Linked(r, keep) + [Item(Node(false, AND), keep(-1 - |Nodes(r)|))]
    case Or(l, r) => Linked(l, keep) + Linked(r, keep) + [Item(Node(false, OR), keep(-1 - |Nodes(r)|))]
  }

  /** With the true distances. */
  function Exact(q: Query): seq<Item> { Linked(q, x => x) }

  /** As findoprnd stores them, in 16 bits. */
  function Stored(q: Query): seq<Item> { Linked(q, Wrap16) }

  /** No right operand is longer than 16 bits can say. */
  predicate Linkable(q: Query) {
    match q
    case Val(v) => true
    case Not(p) => Linkable(p)
    case And(l, r) => Linkable(l) && Linkable(r) && |Nodes(r)| < 0x8000
    case Or(l, r) => Linkable(l) && Linkable(r) && |Nodes(r)| < 0x8000
  }

  lemma {:induction false} SplitEqual(a: seq<Item>, b: seq<Item>, x: Item, c: seq<Item>, d: seq<Item>, y: Item)
    requires |a| == |c| && |b| == |d|
    ensures a + b + [x] == c + d + [y] <==> a == c && b == d && x == y
  {
    if a + b + [x] == c + d + [y] {
      assert a == (a + b + [x])[..|a|] && c == (c + d + [y])[..|a|];
      assert b == (a + b + [x])[|a|..|a| + |b|] && d == (c + d + [y])[|a|..|a| + |b|];
      assert x == (a + b + [x])[|a| + |b|] && y == (c + d + [y])[|a| + |b|];
    }
  }

  lemma {:induction false} WrapExactly(n: nat)
    ensures Wrap16(-1 - n) == -1 - n <==> n < 0x8000
  {
  }

  /** The stored links are the true ones exactly when they fit. */
  lemma {:induction false} StoredExactly(q: Query)
    ensures Stored(q) == Exact(q) <==> Linkable(q)
  {
    match q
    case Val(v) =>
    case Not(p) =>
      StoredExactly(p);
      var x := Item(Node(false, NOT), -1);
      SplitEqual(Stored(p), [], x, Exact(p), [], x);
      assert Stored(p) + [] + [x] == Stored(q) && Exact(p) + [] + [x] == Exact(q);
    case And(l, r) =>
      StoredExactly(l);
      StoredExactly(r);
      WrapExactly(|Nodes(r)|);
      var n := -1 - |Nodes(r)|;
      SplitEqual(Stored(l), Stored(r), Item(Node(false, AND), Wrap16(n)), Exact(l), Exact(r), Item(Node(false, AND), n));
    case Or(l, r) =>
      StoredExactly(l);
      StoredExactly(r);
      WrapExactly(|Nodes(r)|);
      var n := -1 - |Nodes(r)|;
      SplitEqual(Stored(l), Stored(r), Item(Node(false, OR), Wrap16(n)), Exact(l), Exact(r), Item(Node(false, OR), n));
  }

  /** A chain of n + 1 values joined from the right. */
  function RightChain(n: nat): (q: Query)
    ensures |Nodes(q)| == 2 * n + 1
  {
    if n == 0 then Val(0) else And(Val(0), RightChain(n - 1))
  }

  /** A query whose stored links are wrong: 16386 values, so a right operand of 32769 items. */
  lemma {:induction false} UnlinkableExample()
    ensures var q := RightChain(16385); Stored(q) != Exact(q)
  {
    hide RightChain;
    var q := RightChain(16385);
    ChainRight(16385);
    StoredExactly(q);
  }

  lemma {:induction false} ChainRight(n: nat)
    requires n > 0
    ensures RightChain(n) == And(Val(0), RightChain(n - 1))
  {
  }

  // ---- findoprnd ----------------------------------------------------------

  /** The nodes of q end at position pos, as far as types and values go. */
  ghost predicate NodesAt(items: seq<Item>, pos: int, q: Query) {
    && -1 <= pos < |items| && |Nodes(q)| <= pos + 1
    && forall i :: 0 <= i < |Nodes(q)| ==> items[pos + 1 - |Nodes(q)| + i].node == Nodes(q)[i]
  }

  /** The items s end at position pos. */
  ghost predicate EndsAt(items: seq<Item>, pos: int, s: seq<Item>) {
    -1 <= pos < |items| && |s| <= pos + 1 && items[pos + 1 - |s|..pos + 1] == s
  }

  lemma {:induction false} NodesBinary(items: seq<Item>, pos: int, q: Query)
    requires NodesAt(items, pos, q) && (q.And? || q.Or?)
    ensures items[pos].node == Node(false, if q.And? then AND else OR)
    ensures NodesAt(items, pos - 1, q.r) && NodesAt(items, pos - 1 - |Nodes(q.r)|, q.l)
  {
    var n, a, b := |Nodes(q)|, |Nodes(q.l)|, |Nodes(q.r)|;
    assert items[pos + 1 - n + (n - 1)].node == Nodes(q)[n - 1];
    forall i | 0 <= i < b ensures items[pos - b + i].node == Nodes(q.r)[i] {
      assert items[pos + 1 - n + (a + i)].node == Nodes(q)[a + i];
    }
    forall i | 0 <= i < a ensures items[pos - b - a + i].node == Nodes(q.l)[i] {
      assert items[pos + 1 - n + i].node == Nodes(q)[i];
    }
  }

  lemma {:induction false} NodesUnary(items: seq<Item>, pos: int, q: Query)
    requires NodesAt(items, pos, q) && (q.Val? || q.Not?)
    ensures q.Val? ==> items[pos].node == Node(true, q.v)
    ensures q.Not? ==> items[pos].node == Node(false, NOT) && NodesAt(items, pos - 1, q.q)
  {
    var n := |Nodes(q)|;
    assert items[pos + 1 - n + (n - 1)].node == Nodes(q)[n - 1];
    if q.Not? {
      forall i | 0 <= i < n - 1 ensures items[pos - (n - 1) + i].node == Nodes(q.q)[i] {
        assert items[pos + 1 - n + i].node == Nodes(q)[i];
      }
    }
  }

  lemma {:induction false} NodesKept(items: seq<Item>, items': seq<Item>, pos: int, q: Query)
    requires NodesAt(items, pos, q) && |items'| == |items| && items'[..pos + 1] == items[..pos + 1]
    ensures NodesAt(items', pos, q)
  {
    forall i | 0 <= i < |Nodes(q)| ensures items'[pos + 1 - |Nodes(q)| + i].node == Nodes(q)[i] {
      var p := pos + 1 - |Nodes(q)| + i;
      assert items'[p] == items'[..pos + 1][p];
    }
  }

  /** findoprnd: stores the distance to the left operand in every item of the query ending at pos. */
  method FindOprnd(ptr: array<Item>, pos: int, ghost q: Query) returns (pos': int)
    requires NodesAt(ptr[..], pos, q)
    modifies ptr
    ensures pos' == pos - |Nodes(q)|
    ensures ptr[..] == old(ptr[..])[..pos' + 1] + Stored(q) + old(ptr[..])[pos + 1..]
    decreases q
  {
    hide Wrap16, NodesAt, Nodes, Linked, Stored;
    ghost var P := ptr[..];
    Position(P, pos, q);
    if ptr[pos].node.isVal {
      ghost var v := ValNode(P, pos, q);
      ptr[pos] := Item(ptr[pos].node, 0);
      ValDone(P, ptr[..], pos, Item(Node(true, v), 0));
      pos' := pos - 1;
    } else if ptr[pos].node.val == NOT {
      NotNode(P, pos, q);
      ptr[pos] := Item(ptr[pos].node, -1);
      ghost var M := ptr[..];
      SetBehind(P, M, pos, Item(P[pos].node, -1));
      NodesKept(P, M, pos - 1, q.q);
      pos' := FindOprnd(ptr, pos - 1, q.q);
      NotDone(P, M, pos, pos', Stored(q.q), Item(P[pos].node, -1));
    } else {
      BinaryNode(P, pos, q);
      var mid := FindOprnd(ptr, pos - 1, q.r);
      ghost var M := ptr[..];
      RightDone(P, M, pos, mid, q);
      ptr[pos] := Item(ptr[pos].node, Wrap16(mid - pos));
      ghost var N := ptr[..];
      SetBehind(M, N, pos, Item(P[pos].node, Wrap16(mid - pos)));
      KeptBelow(P, M, N, pos, mid);
      NodesKept(P, N, mid, q.l);
      pos' := FindOprnd(ptr, mid, q.l);
      LeftDone(P, M, N, pos, mid, pos', q);
    }
  }

  lemma {:induction false} ValDone(P: seq<Item>, M: seq<Item>, pos: int, x: Item)
    requires 0 <= pos < |P| && M == P[pos := x]
    ensures M == P[..pos] + [x] + P[pos + 1..]
  {
  }

  lemma {:induction false} SetBehind(P: seq<Item>, M: seq<Item>, pos: int, x: Item)
    requires 0 <= pos < |P| && M == P[pos := x]
    ensures |M| == |P| && M[..pos] == P[..pos]
  {
  }

  lemma {:induction false} KeptBelow(P: seq<Item>, M: seq<Item>, N: seq<Item>, pos: int, mid: int)
    requires -1 <= mid < pos < |P| == |M| == |N| && N[..pos] == M[..pos] && M[..mid + 1] == P[..mid + 1]
    ensures N[..mid + 1] == P[..mid + 1]
  {
    assert N[..mid + 1] == N[..pos][..mid + 1];
    assert M[..mid + 1] == M[..pos][..mid + 1];
  }

  lemma {:induction false} NotDone(P: seq<Item>, M: seq<Item>, pos: int, end: int, s: seq<Item>, x: Item)
    requires 0 <= pos < |P| && -1 <= end < pos && M == P[pos := x]
    ensures M[..end + 1] + s + M[pos..] == P[..end + 1] + (s + [x]) + P[pos + 1..]
  {
    assert M[..end + 1] == P[..end + 1];
    assert M[pos..] == [x] + P[pos + 1..];
  }

  lemma {:induction false} Position(items: seq<Item>, pos: int, q: Query)
    requires NodesAt(items, pos, q)
    ensures 0 <= pos < |items| && pos - |Nodes(q)| >= -1
  {
  }

  lemma {:induction false} ValNode(items: seq<Item>, pos: int, q: Query) returns (v: int)
    requires NodesAt(items, pos, q) && 0 <= pos < |items| && items[pos].node.isVal
    ensures q == Val(v) && items[pos].node == Node(true, v) && |Nodes(q)| == 1 && Stored(q) == [Item(Node(true, v), 0)]
  {
    Kind(items, pos, q);
    v := q.v;
  }

  lemma {:induction false} NotNode(items: seq<Item>, pos: int, q: Query)
    requires NodesAt(items, pos, q) && 0 <= pos < |items| && !items[pos].node.isVal && items[pos].node.val == NOT
    ensures q.Not? && items[pos].node == Node(false, NOT) && NodesAt(items, pos - 1, q.q) && |Nodes(q)| == |Nodes(q.q)| + 1
    ensures Stored(q) == Stored(q.q) + [Item(Node(false, NOT), -1)]
  {
    Kind(items, pos, q);
    NodesUnary(items, pos, q);
  }

  lemma {:induction false} BinaryNode(items: seq<Item>, pos: int, q: Query)
    requires NodesAt(items, pos, q) && 0 <= pos < |items| && !items[pos].node.isVal && items[pos].node.val != NOT
    ensures (q.And? || q.Or?) && items[pos].node == Node(false, if q.And? then AND else OR)
    ensures NodesAt(items, pos - 1, q.r) && NodesAt(items, pos - 1 - |Nodes(q.r)|, q.l)
    ensures |Nodes(q)| == |Nodes(q.l)| + |Nodes(q.r)| + 1
    ensures Stored(q) == Stored(q.l) + Stored(q.r) + [Item(items[pos].node, Wrap16(-1 - |Nodes(q.r)|))]
  {
    Kind(items, pos, q);
    NodesBinary(items, pos, q);
  }

  lemma {:induction false} Kind(items: seq<Item>, pos: int, q: Query)
    requires NodesAt(items, pos, q) && 0 <= pos < |items|
    ensures items[pos].node == Nodes(q)[|Nodes(q)| - 1]
  {
    var n := |Nodes(q)|;
    assert items[pos + 1 - n + (n - 1)].node == Nodes(q)[n - 1];
  }

  lemma {:induction false} RightDone(P: seq<Item>, M: seq<Item>, pos: int, mid: int, q: Query)
    requires (q.And? || q.Or?) && -1 <= mid < pos < |P| && mid == pos - 1 - |Nodes(q.r)|
    requires M == P[..mid + 1] + Stored(q.r) + P[pos..]
    ensures |M| == |P| && M[..mid + 1] == P[..mid + 1] && M[mid + 1..pos] == Stored(q.r) && M[pos..] == P[pos..] && M[pos] == P[pos]
  {
  }

  lemma {:induction false} LeftDone(P: seq<Item>, M: seq<Item>, N: seq<Item>, pos: int, mid: int, end: int, q: Query)
    requires (q.And? || q.Or?) && -1 <= end <= mid < pos < |P| == |M| && mid == pos - 1 - |Nodes(q.r)|
    requires M[..mid + 1] == P[..mid + 1] && M[mid + 1..pos] == Stored(q.r) && M[pos..] == P[pos..]
    requires N == M[pos := Item(P[pos].node, Wrap16(mid - pos))]
    requires Stored(q) == Stored(q.l) + Stored(q.r) + [Item(P[pos].node, Wrap16(-1 - |Nodes(q.r)|))]
    ensures N[..end + 1] == P[..end + 1]
    ensures Stored(q.l) + N[mid + 1..] == Stored(q) + P[pos + 1..]
    ensures N[..end + 1] + Stored(q.l) + N[mid + 1..] == P[..end + 1] + Stored(q) + P[pos + 1..]
  {
    hide Nodes, Wrap16, Linked;
    assert N[mid + 1..] == M[mid + 1..pos] + [N[pos]] + M[pos + 1..];
    assert M[pos + 1..] == M[pos..][1..] == P[pos + 1..];
    assert N[..end + 1] == M[..mid + 1][..end + 1];
  }
}

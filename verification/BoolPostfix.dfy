/** When makepol's output is the postfix form of a query: exactly when it puts out no disjunction too early. */
module BoolPostfix {
  import opened BoolQuery
  import opened BoolText
  import opened BoolRead

  const STACKDEPTH: nat := 16

  /** What makepol puts out for the text is the postfix form of some query. */
  ghost predicate WellFormed(text: string) {
    var r := Polish(text, STACKDEPTH);
    r.Done? ==> exists q :: r.out == Nodes(q)
  }

  // ---- What gettoken reads -------------------------------------------------

  /** Only blanks stand between the last ! and position i. */
  ghost predicate AfterBang(text: string, i: nat) {
    exists p :: 0 <= p < i <= |text| && text[p] == '!' && forall k :: p < k < i ==> text[k] == ' '
  }

  /** No ! is followed by an opening parenthesis. */
  ghost predicate NoBangParen(text: string) {
    forall i :: 0 <= i < |text| && AfterBang(text, i) ==> text[i] != '('
  }

  /** What can be read in which state, and what follows it. */
  lemma {:induction false} Kinds(text: string, i: nat, st: LexState, count: int, nnn: string)
    requires i <= |text|
    ensures var r := GetToken(text, i, st, count, nnn);
      match r.tok
      case TVal(v) => st != WaitOperator && r.st == WaitOperator
      case TOpr(op) => (if st == WaitOperator then op == AND || op == OR else st == WaitOperand && op == NOT) && r.st == WaitOperand
      case TOpen => st == WaitOperand && r.st == WaitOperand
      case TClose => st == WaitOperator && r.st == WaitOperator
      case TEnd => st == WaitOperator && r.st == WaitOperator
      case TErr => true
    decreases |text| - i
  {
    hide Atoi, IsDigit;
    var c := At(text, i);
    if i < |text| {
      match st
      case WaitOperand =>
        Kinds(text, i + 1, WaitEndOperand, count, [c]);
        Kinds(text, i + 1, WaitOperand, count, nnn);
      case WaitEndOperand =>
        Kinds(text, i + 1, WaitEndOperand, count, nnn + [c]);
      case WaitOperator =>
        Kinds(text, i + 1, WaitOperator, count, nnn);
    } else {
      assert !IsDigit('\0') by { NulIsNoDigit(); }
    }
  }

  lemma {:induction false} NulIsNoDigit()
    ensures !IsDigit('\0')
  {
  }

  lemma {:induction false} AfterBlank(text: string, i: nat)
    requires AfterBang(text, i) && i < |text| && text[i] == ' '
    ensures AfterBang(text, i + 1)
  {
    var p :| 0 <= p < i <= |text| && text[p] == '!' && forall k :: p < k < i ==> text[k] == ' ';
    assert text[p] == '!' && forall k :: p < k < i + 1 ==> text[k] == ' ';
  }

  lemma {:induction false} NoOpenAfterBang(text: string, i: nat, count: int, nnn: string)
    requires AfterBang(text, i) && NoBangParen(text)
    ensures i <= |text| && GetToken(text, i, WaitOperand, count, nnn).tok != TOpen
    decreases |text| - i
  {
    if i < |text| {
      var c := text[i];
      Kinds(text, i + 1, WaitEndOperand, count, [c]);
      if c == ' ' {
        AfterBlank(text, i);
        NoOpenAfterBang(text, i + 1, count, nnn);
      }
    }
  }

  lemma {:induction false} BangRead(text: string, i: nat, st: LexState, count: int, nnn: string)
    requires i <= |text| && GetToken(text, i, st, count, nnn).tok == TOpr(NOT)
    ensures AfterBang(text, GetToken(text, i, st, count, nnn).i)
    decreases |text| - i
  {
    var c := At(text, i);
    Kinds(text, i, st, count, nnn);
    if i < |text| {
      if c == ' ' {
        BangRead(text, i + 1, st, count, nnn);
      } else {
        Kinds(text, i + 1, WaitEndOperand, count, [c]);
        assert text[i] == '!';
      }
    }
  }

  // ---- When the parser puts out a postfix form ----------------------------

  /** The conjunctions and disjunctions waiting on a stack. */
  function Binaries(stack: seq<int>): nat {
    if stack == [] then 0 else Binaries(stack[..|stack| - 1]) + (if stack[|stack| - 1] == NOT then 0 else 1)
  }

  /** In makepol's run from a state, with b operators waiting in the enclosing levels, some | is put out at once,
      because the stack is not empty, while no & or | waits in any level. */
  predicate BadRun(text: string, i: nat, st: LexState, count: int, stack: seq<int>, out: seq<Node>, b: nat, limit: nat)
    requires i <= |text| && st != WaitEndOperand
    decreases |text| - i
  {
    var t := GetToken(text, i, st, count, "");
    match t.tok
    case TEnd => false
    case TErr => false
    case TVal(v) =>
      var p := PopTight(stack, out + [Node(true, v)]);
      BadRun(text, t.i, t.st, t.count, p.0, p.1, b, limit)
    case TOpr(op) =>
      if stack != [] && op == OR then
        b + Binaries(stack) == 0 || BadRun(text, t.i, t.st, t.count, stack, out + [Node(false, OR)], b, limit)
      else |stack| != limit && BadRun(text, t.i, t.st, t.count, stack + [op], out, b, limit)
    case TOpen =>
      var n := Pol(text, t.i, t.st, t.count, [], out, limit);
      BadRun(text, t.i, t.st, t.count, [], out, b + Binaries(stack), limit) ||
      (n.Done? &&
        if stack != [] && IsTight(stack[|stack| - 1]) then
          BadRun(text, n.i, n.st, n.count, stack[..|stack| - 1], n.out + [Node(false, stack[|stack| - 1])], b, limit)
        else BadRun(text, n.i, n.st, n.count, stack, n.out, b, limit))
    case TClose => false
  }

  /** An accepted text on which makepol puts out a | too early. */
  predicate BadBar(text: string) {
    Polish(text, STACKDEPTH).Done? && BadRun(text, 0, WaitOperand, 0, [], [], 0, STACKDEPTH)
  }

  /** How many operands a list of nodes leaves; negative once an operator has found too few. */
  function Depth(s: seq<Node>): (d: int)
    ensures d >= -1
  {
    if s == [] then 0
    else
      var d, n := Depth(s[..|s| - 1]), s[|s| - 1];
      if n.isVal then if d < 0 then -1 else d + 1
      else if n.val == NOT then if d < 1 then -1 else d
      else if d < 2 then -1 else d - 1
  }

  predicate IsOp(op: int) { op == NOT || op == AND || op == OR }

  predicate AllNodes(s: seq<Node>) {
    forall i :: 0 <= i < |s| ==> s[i].isVal || IsOp(s[i].val)
  }

  predicate AllOps(stack: seq<int>) {
    forall i :: 0 <= i < |stack| ==> IsOp(stack[i])
  }

  lemma {:induction false} DepthSnoc(s: seq<Node>, n: Node)
    ensures Depth(s + [n]) ==
      var d := Depth(s);
      if n.isVal then if d < 0 then -1 else d + 1
      else if n.val == NOT then if d < 1 then -1 else d
      else if d < 2 then -1 else d - 1
  {
    assert (s + [n])[..|s|] == s;
  }

  lemma {:induction false} BinariesSnoc(stack: seq<int>, op: int)
    ensures Binaries(stack + [op]) == Binaries(stack) + (if op == NOT then 0 else 1)
  {
    assert (stack + [op])[..|stack|] == stack;
  }

  /** A postfix form leaves one operand more. */
  lemma {:induction false} NodesDepth(s: seq<Node>, q: Query)
    requires Depth(s) >= 0
    ensures Depth(s + Nodes(q)) == Depth(s) + 1
    decreases q
  {
    hide Depth;
    match q
    case Val(v) =>
      DepthSnoc(s, Node(true, v));
    case Not(p) =>
      NodesDepth(s, p);
      assert s + Nodes(q) == (s + Nodes(p)) + [Node(false, NOT)];
      DepthSnoc(s + Nodes(p), Node(false, NOT));
    case And(l, r) =>
      NodesDepth(s, l);
      NodesDepth(s + Nodes(l), r);
      assert s + Nodes(q) == (s + Nodes(l) + Nodes(r)) + [Node(false, AND)];
      DepthSnoc(s + Nodes(l) + Nodes(r), Node(false, AND));
    case Or(l, r) =>
      NodesDepth(s, l);
      NodesDepth(s + Nodes(l), r);
      assert s + Nodes(q) == (s + Nodes(l) + Nodes(r)) + [Node(false, OR)];
      DepthSnoc(s + Nodes(l) + Nodes(r), Node(false, OR));
  }

  lemma {:induction false} TwoLast(c: seq<Query>)
    requires |c| >= 2
    ensures NodesAll(c) == NodesAll(c[..|c| - 2]) + Nodes(c[|c| - 2]) + Nodes(c[|c| - 1])
  {
    var d, x, y := c[..|c| - 2], c[|c| - 2], c[|c| - 1];
    assert c == (d + [x]) + [y];
    NodesAllSnoc(d + [x], y);
    NodesAllSnoc(d, x);
  }

  /** Nodes that leave k operands are k postfix forms one after the other. */
  lemma {:induction false} Operands(s: seq<Node>) returns (c: seq<Query>)
    requires AllNodes(s) && Depth(s) >= 0
    ensures |c| == Depth(s) && s == NodesAll(c)
  {
    hide Nodes, NodesAll;
    if s == [] {
      c := [];
      NodesAllOne(Val(0));
    } else {
      var t, n := s[..|s| - 1], s[|s| - 1];
      assert s == t + [n];
      var d := Operands(t);
      if n.isVal {
        ValNodes(n.val);
        NodesAllSnoc(d, Val(n.val));
        c := d + [Val(n.val)];
      } else if n.val == NOT {
        var e, x := d[..|d| - 1], d[|d| - 1];
        assert d == e + [x];
        NodesAllSnoc(e, x);
        NodesAllSnoc(e, Not(x));
        NotNodesOf(x);
        c := e + [Not(x)];
        assert NodesAll(e) + Nodes(x) + [n] == NodesAll(e) + (Nodes(x) + [n]);
      } else {
        var e, x, y := d[..|d| - 2], d[|d| - 2], d[|d| - 1];
        TwoLast(d);
        AndNodesOf(x, y);
        var q := if n.val == AND then And(x, y) else Or(x, y);
        NodesAllSnoc(e, q);
        c := e + [q];
        assert NodesAll(e) + Nodes(x) + Nodes(y) + [n] == NodesAll(e) + (Nodes(x) + Nodes(y) + [n]);
      }
    }
  }

  lemma {:induction false} ValNodes(v: int)
    ensures Nodes(Val(v)) == [Node(true, v)]
  {
  }

  /** A list of nodes is the postfix form of a query exactly when it leaves one operand. */
  lemma {:induction false} PostfixExactly(s: seq<Node>)
    requires AllNodes(s)
    ensures (exists q :: s == Nodes(q)) <==> Depth(s) == 1
  {
    hide Nodes, AllNodes;
    if q :| s == Nodes(q) {
      NodesDepth([], q);
      assert [] + Nodes(q) == Nodes(q);
    }
    if Depth(s) == 1 {
      var c := Operands(s);
      assert c == [c[0]];
      NodesAllOne(c[0]);
    }
  }

  /** Popping keeps the balance of operands and waiting operators. */
  lemma {:induction false} PopTightBalance(stack: seq<int>, out: seq<Node>, b: nat)
    requires AllOps(stack) && AllNodes(out) && Depth(out) == b + Binaries(stack) + 1
    ensures var p := PopTight(stack, out);
      AllOps(p.0) && AllNodes(p.1) && Depth(p.1) == b + Binaries(p.0) + 1
  {
    if stack != [] && IsTight(stack[|stack| - 1]) {
      DepthSnoc(out, Node(false, stack[|stack| - 1]));
      PopTightBalance(stack[..|stack| - 1], out + [Node(false, stack[|stack| - 1])], b);
    }
  }

  lemma {:induction false} PopAllBalance(stack: seq<int>, out: seq<Node>, b: nat)
    requires AllOps(stack) && AllNodes(out) && Depth(out) == b + Binaries(stack) + 1
    ensures AllNodes(out + PopAll(stack)) && Depth(out + PopAll(stack)) == b + 1
  {
    hide Depth, Binaries, PopAll;
    NoBinaries();
    NoOperators();
    if stack == [] {
      assert out + [] == out;
    } else {
      var t, op := stack[..|stack| - 1], stack[|stack| - 1];
      var n := Node(false, op);
      assert stack == t + [op];
      BinariesSnoc(t, op);
      PopAllLast(t, op);
      DepthSnoc(out, n);
      PopAllBalance(t, out + [n], b);
      assert out + ([n] + PopAll(t)) == (out + [n]) + PopAll(t);
    }
  }

  /** An operator that has found too few operands cannot be made good. */
  lemma {:induction false} DeadStays(s: seq<Node>, t: seq<Node>)
    requires Depth(s) < 0
    ensures Depth(s + t) < 0
  {
    if t == [] {
      assert s + t == s;
    } else {
      DeadStays(s, t[..|t| - 1]);
      assert s + t == (s + t[..|t| - 1]) + [t[|t| - 1]];
      DepthSnoc(s + t[..|t| - 1], t[|t| - 1]);
    }
  }

  lemma {:induction false} DeadPops(stack: seq<int>, out: seq<Node>)
    requires Depth(out) < 0
    ensures Depth(PopTight(stack, out).1) < 0
  {
    if stack != [] && IsTight(stack[|stack| - 1]) {
      DepthSnoc(out, Node(false, stack[|stack| - 1]));
      DeadPops(stack[..|stack| - 1], out + [Node(false, stack[|stack| - 1])]);
    }
  }

  lemma {:induction false} DeadRun(text: string, i: nat, st: LexState, count: int, stack: seq<int>, out: seq<Node>, limit: nat)
    requires i <= |text| && st != WaitEndOperand && Depth(out) < 0
    ensures var r := Pol(text, i, st, count, stack, out, limit); r.Done? ==> Depth(r.out) < 0
    decreases |text| - i
  {
    hide GetToken, PopTight, PopAll, Depth;
    var t := GetToken(text, i, st, count, "");
    match t.tok
    case TEnd => DeadStays(out, PopAll(stack));
    case TErr =>
    case TVal(v) =>
      DepthSnoc(out, Node(true, v));
      DeadPops(stack, out + [Node(true, v)]);
      var p := PopTight(stack, out + [Node(true, v)]);
      DeadRun(text, t.i, t.st, t.count, p.0, p.1, limit);
    case TOpr(op) =>
      DepthSnoc(out, Node(false, OR));
      DeadRun(text, t.i, t.st, t.count, stack, out + [Node(false, OR)], limit);
      DeadRun(text, t.i, t.st, t.count, stack + [op], out, limit);
    case TOpen =>
      DeadRun(text, t.i, t.st, t.count, [], out, limit);
      var n := Pol(text, t.i, t.st, t.count, [], out, limit);
      if n.Done? {
        DeadRun(text, n.i, n.st, n.count, stack, n.out, limit);
        if stack != [] {
          DepthSnoc(n.out, Node(false, stack[|stack| - 1]));
          DeadRun(text, n.i, n.st, n.count, stack[..|stack| - 1], n.out + [Node(false, stack[|stack| - 1])], limit);
        }
      }
    case TClose => DeadStays(out, PopAll(stack));
  }

  /** Before an operand a level has put out as many operands as operators wait, behind one it has put out one more. */
  ghost predicate Balanced(st: LexState, stack: seq<int>, out: seq<Node>, b: nat) {
    AllOps(stack) && AllNodes(out) && Depth(out) == b + Binaries(stack) + (if st == WaitOperator then 1 else 0)
  }

  /** What a level puts out leaves one operand for it, or none of its operators was early. */
  ghost predicate Result(r: PolResult, bad: bool, b: nat) {
    r.Done? ==> r.st == WaitOperator && if bad then Depth(r.out) < 0 else AllNodes(r.out) && Depth(r.out) == b + 1
  }

  /** makepol's output on one level leaves exactly one operand unless a | was put out too early. */
  lemma {:induction false} Counting(text: string, i: nat, st: LexState, count: int, stack: seq<int>, out: seq<Node>, b: nat, limit: nat)
    requires i <= |text| && st != WaitEndOperand && Balanced(st, stack, out, b)
    ensures Result(Pol(text, i, st, count, stack, out, limit), BadRun(text, i, st, count, stack, out, b, limit), b)
    decreases |text| - i, 1
  {
    hide GetToken, PopTight, PopAll, Depth, Binaries;
    var t := GetToken(text, i, st, count, "");
    Kinds(text, i, st, count, "");
    match t.tok
    case TEnd => PopAllBalance(stack, out, b);
    case TErr =>
    case TVal(v) =>
      DepthSnoc(out, Node(true, v));
      PopTightBalance(stack, out + [Node(true, v)], b);
      var p := PopTight(stack, out + [Node(true, v)]);
      Counting(text, t.i, t.st, t.count, p.0, p.1, b, limit);
    case TOpr(op) =>
      if stack != [] && op == OR {
        DepthSnoc(out, Node(false, OR));
        if b + Binaries(stack) == 0 {
          DeadRunState(text, t.i, t.st, t.count, stack, out + [Node(false, OR)], limit);
        } else {
          Counting(text, t.i, t.st, t.count, stack, out + [Node(false, OR)], b, limit);
        }
      } else if |stack| != limit {
        BinariesSnoc(stack, op);
        Counting(text, t.i, t.st, t.count, stack + [op], out, b, limit);
      }
    case TOpen => CountingOpen(text, i, st, count, stack, out, b, limit);
    case TClose => PopAllBalance(stack, out, b);
  }

  /** A run that ends, ends behind an operand. */
  lemma {:induction false} DoneState(text: string, i: nat, st: LexState, count: int, stack: seq<int>, out: seq<Node>, limit: nat)
    requires i <= |text| && st != WaitEndOperand
    ensures var r := Pol(text, i, st, count, stack, out, limit); r.Done? ==> r.st == WaitOperator
    decreases |text| - i
  {
    hide GetToken, PopTight, PopAll;
    var t := GetToken(text, i, st, count, "");
    Kinds(text, i, st, count, "");
    match t.tok
    case TEnd =>
    case TErr =>
    case TVal(v) =>
      var p := PopTight(stack, out + [Node(true, v)]);
      DoneState(text, t.i, t.st, t.count, p.0, p.1, limit);
    case TOpr(op) =>
      DoneState(text, t.i, t.st, t.count, stack, out + [Node(false, OR)], limit);
      DoneState(text, t.i, t.st, t.count, stack + [op], out, limit);
    case TOpen =>
      var n := Pol(text, t.i, t.st, t.count, [], out, limit);
      if n.Done? {
        DoneState(text, n.i, n.st, n.count, stack, n.out, limit);
        if stack != [] {
          DoneState(text, n.i, n.st, n.count, stack[..|stack| - 1], n.out + [Node(false, stack[|stack| - 1])], limit);
        }
      }
    case TClose =>
  }

  lemma {:induction false} DeadRunState(text: string, i: nat, st: LexState, count: int, stack: seq<int>, out: seq<Node>, limit: nat)
    requires i <= |text| && st != WaitEndOperand && Depth(out) < 0
    ensures var r := Pol(text, i, st, count, stack, out, limit); r.Done? ==> Depth(r.out) < 0 && r.st == WaitOperator
  {
    DeadRun(text, i, st, count, stack, out, limit);
    DoneState(text, i, st, count, stack, out, limit);
  }

  lemma {:induction false} CountingOpen(text: string, i: nat, st: LexState, count: int, stack: seq<int>, out: seq<Node>, b: nat, limit: nat)
    requires i <= |text| && st != WaitEndOperand && Balanced(st, stack, out, b)
    requires GetToken(text, i, st, count, "").tok == TOpen
    ensures Result(Pol(text, i, st, count, stack, out, limit), BadRun(text, i, st, count, stack, out, b, limit), b)
    decreases |text| - i, 0
  {
    hide GetToken, PopTight, PopAll, Depth, Binaries;
    var t := GetToken(text, i, st, count, "");
    Kinds(text, i, st, count, "");
    NoBinaries();
    var c := b + Binaries(stack);
    Counting(text, t.i, t.st, t.count, [], out, c, limit);
    var n := Pol(text, t.i, t.st, t.count, [], out, limit);
    var bad := BadRun(text, t.i, t.st, t.count, [], out, c, limit);
    if n.Done? {
      if stack != [] && IsTight(stack[|stack| - 1]) {
        var s, op := stack[..|stack| - 1], stack[|stack| - 1];
        DepthSnoc(n.out, Node(false, op));
        BinariesSnoc(s, op);
        assert s + [op] == stack;
        if bad {
          DeadRunState(text, n.i, n.st, n.count, s, n.out + [Node(false, op)], limit);
        } else {
          Counting(text, n.i, n.st, n.count, s, n.out + [Node(false, op)], b, limit);
        }
      } else if bad {
        DeadRunState(text, n.i, n.st, n.count, stack, n.out, limit);
      } else {
        Counting(text, n.i, n.st, n.count, stack, n.out, b, limit);
      }
    }
  }

  lemma {:induction false} NoBinaries()
    ensures Binaries([]) == 0 && Depth([]) == 0
  {
  }

  /** An accepted text gives a postfix form exactly when no | is put out too early. */
  lemma {:induction false} WellFormedExactly(text: string)
    ensures WellFormed(text) <==> !BadBar(text)
  {
    hide Pol, BadRun, Depth, Nodes, Binaries;
    NoBinaries();
    Counting(text, 0, WaitOperand, 0, [], [], 0, STACKDEPTH);
    var r := Polish(text, STACKDEPTH);
    if r.Done? {
      if BadBar(text) {
        forall q ensures r.out != Nodes(q) {
          NodesDepth([], q);
          assert [] + Nodes(q) == Nodes(q);
        }
      } else {
        PostfixExactly(r.out);
      }
    }
  }

  // ---- Texts without !( ----------------------------------------------------

  ghost predicate NoNots(stack: seq<int>) {
    forall i :: 0 <= i < |stack| ==> stack[i] != NOT
  }

  function Nots(k: nat): (s: seq<int>)
    ensures |s| == k
  {
    if k == 0 then [] else Nots(k - 1) + [NOT]
  }

  lemma {:induction false} WaitingBinary(stack: seq<int>)
    requires NoNots(stack) && stack != []
    ensures Binaries(stack) > 0
  {
  }

  /** Popping behind a value takes all negations. */
  lemma {:induction false} PopsNots(x: seq<int>, k: nat, out: seq<Node>)
    requires NoNots(x)
    ensures NoNots(PopTight(x + Nots(k), out).0)
    decreases |x| + k
  {
    var s := x + Nots(k);
    if k > 0 {
      assert s[..|s| - 1] == x + Nots(k - 1);
      PopsNots(x, k - 1, out + [Node(false, NOT)]);
    } else if x != [] && IsTight(x[|x| - 1]) {
      assert s == x && x[..|x| - 1] + Nots(0) == x[..|x| - 1];
      PopsNots(x[..|x| - 1], 0, out + [Node(false, x[|x| - 1])]);
    } else {
      assert s == x;
    }
  }

  /** Where no ! stands before a parenthesis, the stack behind an operand holds no negation. */
  lemma {:induction false} NoBangParenRun(text: string, i: nat, st: LexState, count: int, x: seq<int>, k: nat, out: seq<Node>, b: nat, limit: nat)
    requires i <= |text| && st != WaitEndOperand && NoBangParen(text) && NoNots(x)
    requires k > 0 ==> st == WaitOperand && AfterBang(text, i)
    ensures !BadRun(text, i, st, count, x + Nots(k), out, b, limit)
    decreases |text| - i
  {
    hide GetToken, PopTight, NoBangParen, AfterBang, Binaries;
    var stack := x + Nots(k);
    var t := GetToken(text, i, st, count, "");
    Kinds(text, i, st, count, "");
    match t.tok
    case TEnd =>
    case TErr =>
    case TVal(v) =>
      PopsNots(x, k, out + [Node(true, v)]);
      var p := PopTight(stack, out + [Node(true, v)]);
      assert p.0 + Nots(0) == p.0;
      NoBangParenRun(text, t.i, t.st, t.count, p.0, 0, p.1, b, limit);
    case TOpr(op) =>
      if op == NOT {
        BangRead(text, i, st, count, "");
        assert stack + [NOT] == x + Nots(k + 1);
        NoBangParenRun(text, t.i, t.st, t.count, x, k + 1, out, b, limit);
      } else {
        assert stack == x;
        if x != [] {
          WaitingBinary(x);
        }
        NoBangParenRun(text, t.i, t.st, t.count, x, 0, out + [Node(false, OR)], b, limit);
        assert (x + [op]) + Nots(0) == stack + [op];
        NoBangParenRun(text, t.i, t.st, t.count, x + [op], 0, out, b, limit);
      }
    case TOpen =>
      if k > 0 {
        NoOpenAfterBang(text, i, count, "");
        assert false;
      }
      assert stack == x && [] + Nots(0) == [];
      NoBangParenRun(text, t.i, t.st, t.count, [], 0, out, b + Binaries(stack), limit);
      var n := Pol(text, t.i, t.st, t.count, [], out, limit);
      if n.Done? {
        NoBangParenRun(text, n.i, n.st, n.count, x, 0, n.out, b, limit);
        if x != [] {
          var s := x[..|x| - 1];
          assert s + Nots(0) == s;
          NoBangParenRun(text, n.i, n.st, n.count, s, 0, n.out + [Node(false, x[|x| - 1])], b, limit);
        }
      }
    case TClose =>
  }

  /** In a text without !( the parser puts out a postfix form. */
  lemma {:induction false} NoBangParenIsWellFormed(text: string)
    requires NoBangParen(text)
    ensures WellFormed(text) && !BadBar(text)
  {
    hide BadRun, NoBangParen, WellFormed;
    assert [] + Nots(0) == [];
    NoBangParenRun(text, 0, WaitOperand, 0, [], 0, [], 0, STACKDEPTH);
    WellFormedExactly(text);
  }

  lemma {:induction false} ExampleTokens(t: string)
    requires t == "!!(1)|2"
    ensures GetToken(t, 0, WaitOperand, 0, "") == Lexed(TOpr(NOT), 1, WaitOperand, 0)
    ensures GetToken(t, 1, WaitOperand, 0, "") == Lexed(TOpr(NOT), 2, WaitOperand, 0)
    ensures GetToken(t, 2, WaitOperand, 0, "") == Lexed(TOpen, 3, WaitOperand, 1)
    ensures GetToken(t, 3, WaitOperand, 1, "") == Lexed(TVal(1), 4, WaitOperator, 1)
    ensures GetToken(t, 4, WaitOperator, 1, "") == Lexed(TClose, 5, WaitOperator, 0)
    ensures GetToken(t, 5, WaitOperator, 0, "") == Lexed(TOpr(OR), 6, WaitOperand, 0)
    ensures GetToken(t, 6, WaitOperand, 0, "") == Lexed(TVal(2), 7, WaitOperator, 0)
    ensures GetToken(t, 7, WaitOperator, 0, "") == Lexed(TEnd, 7, WaitOperator, 0)
  {
    assert t[3..4] == Decimal(1) && t[6..7] == Decimal(2);
    LexNumber(t, 3, 1, 1);
    LexNumber(t, 6, 2, 0);
  }

  lemma {:induction false} PopTightNone(out: seq<Node>)
    ensures PopTight([], out) == ([], out) && PopAll([]) == []
  {
  }

  lemma {:induction false} ExampleLevel(t: string)
    requires t == "!!(1)|2"
    ensures Pol(t, 3, WaitOperand, 1, [], [], 16) == Done(5, WaitOperator, 0, [Node(true, 1)])
  {
    hide GetToken, PopTight, PopAll;
    ExampleTokens(t);
    var n1 := Node(true, 1);
    PopTightNone([n1]);
    assert [] + [n1] == [n1] && [n1] + [] == [n1];
    assert Pol(t, 4, WaitOperator, 1, [], [n1], 16) == Done(5, WaitOperator, 0, [n1]);
  }

  /** With !( the output can be malformed: on this text a | stands behind a single operand. */
  lemma {:induction false} BangParenExample()
    ensures BadBar("!!(1)|2") && !WellFormed("!!(1)|2")
  {
    hide GetToken, PopTight, PopAll, Nodes, BadRun;
    var t := "!!(1)|2";
    ExampleTokens(t);
    var n1, nn, no, n2 := Node(true, 1), Node(false, NOT), Node(false, OR), Node(true, 2);
    var out := [n1, nn, no, n2, nn];
    PopTightNone([n1]);
    PopTightNone(out);
    PopTightLast([], [n1, nn, no, n2], NOT);
    assert [] + [NOT] == [NOT] && [NOT] + [NOT] == [NOT, NOT] && [NOT, NOT][..1] == [NOT];
    assert [] + [n1] == [n1] && [n1] + [nn] == [n1, nn] && [n1, nn] + [no] == [n1, nn, no];
    assert [n1, nn, no] + [n2] == [n1, nn, no, n2] && [n1, nn, no, n2] + [nn] == out;
    ExampleLevel(t);
    assert Pol(t, 7, WaitOperator, 0, [], out, 16) == Done(7, WaitOperator, 0, out);
    assert Pol(t, 6, WaitOperand, 0, [NOT], [n1, nn, no], 16) == Done(7, WaitOperator, 0, out);
    assert Pol(t, 5, WaitOperator, 0, [NOT], [n1, nn], 16) == Done(7, WaitOperator, 0, out);
    assert Pol(t, 2, WaitOperand, 0, [NOT, NOT], [], 16) == Done(7, WaitOperator, 0, out);
    assert Pol(t, 1, WaitOperand, 0, [NOT], [], 16) == Done(7, WaitOperator, 0, out);
    BadSteps(t);
    WellFormedExactly(t);
  }

  lemma {:induction false} BadSteps(t: string)
    requires t == "!!(1)|2"
    ensures BadRun(t, 0, WaitOperand, 0, [], [], 0, 16)
  {
    hide GetToken, PopTight, PopAll, Pol;
    ExampleTokens(t);
    var n1, nn := Node(true, 1), Node(false, NOT);
    ExampleLevel(t);
    assert [] + [NOT] == [NOT] && [NOT] + [NOT] == [NOT, NOT] && [NOT, NOT][..1] == [NOT];
    assert [n1] + [nn] == [n1, nn];
    assert Binaries([NOT]) == 0;
    assert BadRun(t, 5, WaitOperator, 0, [NOT], [n1, nn], 0, 16);
    assert BadRun(t, 2, WaitOperand, 0, [NOT, NOT], [], 0, 16);
    assert BadRun(t, 1, WaitOperand, 0, [NOT], [], 0, 16);
  }
}

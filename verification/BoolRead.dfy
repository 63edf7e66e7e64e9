/** Reading a printed query back: the parser gives a query of the same meaning. */
module BoolRead {
  import opened BoolQuery
  import opened BoolText
  import opened Texts

  lemma {:induction false} HasFirst(text: string, i: nat, s: string)
    requires Has(text, i, s) && s != ""
    ensures i < |text| && At(text, i) == text[i] == s[0]
  {
    assert text[i..i + |s|][0] == s[0];
  }

  /** What follows an operand: no digit, and not the end inside parentheses. */
  ghost predicate Stops(text: string, e: nat, count: int) {
    !IsDigit(At(text, e)) && (count != 0 ==> At(text, e) != '\0')
  }

  // ---- Tokens -------------------------------------------------------------

  lemma {:induction false} LexDigits(text: string, i: nat, s: string, count: int, nnn: string)
    requires AllDigits(s) && Has(text, i, s)
    ensures i + |s| <= |text| && GetToken(text, i, WaitEndOperand, count, nnn) == GetToken(text, i + |s|, WaitEndOperand, count, nnn + s)
    decreases |s|
  {
    if s == "" {
      assert nnn + s == nnn;
    } else {
      assert s == s[..1] + s[1..];
      HasSplit(text, i, s[..1], s[1..]);
      HasFirst(text, i, s);
      LexDigits(text, i + 1, s[1..], count, nnn + [s[0]]);
      assert nnn + [s[0]] + s[1..] == nnn + s;
    }
  }

  /** A printed number is one token. */
  lemma {:induction false} LexNumber(text: string, i: nat, v: int, count: int)
    requires Has(text, i, Decimal(v)) && Stops(text, i + |Decimal(v)|, count)
    ensures i + |Decimal(v)| <= |text|
    ensures GetToken(text, i, WaitOperand, count, "") == Lexed(TVal(v), i + |Decimal(v)|, WaitOperator, count)
  {
    hide Decimal, Atoi;
    var s := Decimal(v);
    DecimalBack(v);
    assert s == s[..1] + s[1..];
    HasSplit(text, i, s[..1], s[1..]);
    HasFirst(text, i, s);
    LexDigits(text, i + 1, s[1..], count, [s[0]]);
    assert [s[0]] + s[1..] == s;
  }

  /** A blank is skipped before an operand and before an operator. */
  lemma {:induction false} SkipBlank(text: string, i: nat, st: LexState, count: int, stack: seq<int>, out: seq<Node>, limit: nat)
    requires i < |text| && text[i] == ' ' && st != WaitEndOperand
    ensures Pol(text, i, st, count, stack, out, limit) == Pol(text, i + 1, st, count, stack, out, limit)
  {
    assert GetToken(text, i, st, count, "") == GetToken(text, i + 1, st, count, "");
  }

  // ---- Pending operands ---------------------------------------------------

  /** The stack does not grow beyond the limit while q is read behind k pending operands and b operators below them. */
  predicate Readable(q: Query, k: nat, b: nat, limit: nat)
    decreases q, if q.Or? then 1 else 0
  {
    match q
    case Val(v) => true
    case Not(p) => b + k + 1 <= limit && (p.Val? || ReadableLevel(p, limit))
    case And(l, r) => Readable(l, k, b, limit) && b + Pend(l, k) + 1 <= limit && Readable(r, Pend(l, k) + 1, b, limit)
    case Or(l, r) => ReadableLevel(q, limit)
  }

  /** The same for a query that starts a level of its own. */
  predicate ReadableLevel(q: Query, limit: nat)
    decreases q, if q.Or? then 0 else 1
  {
    if q.Or? then
      var m := Pend(q.l, 0);
      Readable(q.l, 0, 0, limit) && if m == 0 then 1 <= limit && Readable(q.r, 0, 1, limit) else Readable(q.r, m, 0, limit)
    else Readable(q, 0, 0, limit)
  }

  function Ands(k: nat): seq<int> { if k == 0 then [] else Ands(k - 1) + [AND] }

  function AndNodes(k: nat): seq<Node> { if k == 0 then [] else [Node(false, AND)] + AndNodes(k - 1) }

  lemma {:induction false} AndNodesSnoc(k: nat)
    ensures AndNodes(k + 1) == AndNodes(k) + [Node(false, AND)] && |Ands(k)| == k
  {
    var n := Node(false, AND);
    if k == 0 {
      assert [n] + AndNodes(0) == AndNodes(0) + [n];
    } else {
      AndNodesSnoc(k - 1);
      assert [n] + (AndNodes(k - 1) + [n]) == ([n] + AndNodes(k - 1)) + [n];
    }
  }

  function NodesAll(c: seq<Query>): seq<Node> {
    if c == [] then [] else Nodes(c[0]) + NodesAll(c[1..])
  }

  lemma {:induction false} NodesAllSnoc(c: seq<Query>, q: Query)
    ensures NodesAll(c + [q]) == NodesAll(c) + Nodes(q)
  {
    if c == [] {
      assert c + [q] == [q] && [q][1..] == [];
    } else {
      NodesAllSnoc(c[1..], q);
      assert (c + [q])[1..] == c[1..] + [q];
    }
  }

  /** Pending operands and the conjunctions put behind them make one query. */
  lemma {:induction false} ConjNodes(c: seq<Query>)
    requires c != []
    ensures Nodes(Conj(c)) == NodesAll(c) + AndNodes(|c| - 1)
  {
    if |c| == 1 {
      assert c[1..] == [];
    } else {
      ConjNodes(c[1..]);
      AndNodesSnoc(|c| - 2);
    }
  }

  /** The stack of a level: at most one |, then pending conjunctions. */
  ghost predicate IsBase(base: seq<int>) { base == [] || base == [OR] }

  lemma {:induction false} AndsLast(base: seq<int>, k: nat)
    ensures base + Ands(k + 1) == (base + Ands(k)) + [AND] && |Ands(k)| == k
  {
    AndNodesSnoc(k);
  }

  lemma {:induction false} BaseLoose(base: seq<int>, out: seq<Node>)
    requires IsBase(base)
    ensures PopTight(base, out) == (base, out)
  {
  }

  lemma {:induction false} PopTightLast(s: seq<int>, out: seq<Node>, op: int)
    requires IsTight(op)
    ensures PopTight(s + [op], out) == PopTight(s, out + [Node(false, op)])
  {
    assert (s + [op])[..|s|] == s;
  }

  lemma {:induction false} PopAllLast(s: seq<int>, op: int)
    ensures PopAll(s + [op]) == [Node(false, op)] + PopAll(s)
  {
    assert (s + [op])[..|s|] == s;
  }

  lemma {:induction false} PopAnds(base: seq<int>, k: nat, out: seq<Node>)
    requires IsBase(base)
    ensures PopTight(base + Ands(k), out) == (base, out + AndNodes(k))
    ensures PopAll(base + Ands(k)) == AndNodes(k) + PopAll(base)
  {
    hide PopTight, PopAll, IsBase, Ands;
    if k == 0 {
      NoAnds(base);
      BaseLoose(base, out);
      assert out + AndNodes(0) == out && AndNodes(0) + PopAll(base) == PopAll(base);
    } else {
      AndsLast(base, k - 1);
      var s, n := base + Ands(k - 1), Node(false, AND);
      PopTightLast(s, out, AND);
      PopAllLast(s, AND);
      PopAnds(base, k - 1, out + [n]);
      assert out + [n] + AndNodes(k - 1) == out + AndNodes(k);
      assert [n] + (AndNodes(k - 1) + PopAll(base)) == AndNodes(k) + PopAll(base);
    }
  }

  lemma {:induction false} NoAnds(base: seq<int>)
    ensures base + Ands(0) == base
  {
  }

  // ---- Steps of the parser ------------------------------------------------

  lemma {:induction false} StepVal(text: string, i: nat, v: int, count: int, stack: seq<int>, out: seq<Node>, limit: nat)
    requires Has(text, i, Decimal(v)) && Stops(text, i + |Decimal(v)|, count)
    ensures i + |Decimal(v)| <= |text|
    ensures Pol(text, i, WaitOperand, count, stack, out, limit) ==
      var p := PopTight(stack, out + [Node(true, v)]); Pol(text, i + |Decimal(v)|, WaitOperator, count, p.0, p.1, limit)
  {
    hide GetToken, Decimal, PopTight;
    LexNumber(text, i, v, count);
  }

  lemma {:induction false} StepNot(text: string, i: nat, count: int, stack: seq<int>, out: seq<Node>, limit: nat)
    requires i < |text| && text[i] == '!' && |stack| < limit
    ensures Pol(text, i, WaitOperand, count, stack, out, limit) == Pol(text, i + 1, WaitOperand, count, stack + [NOT], out, limit)
  {
  }

  /** " & " and " | " between two operands. */
  lemma {:induction false} StepOperator(text: string, i: nat, count: int, stack: seq<int>, out: seq<Node>, limit: nat, and: bool)
    requires Has(text, i, if and then " & " else " | ") && |stack| < limit && (!and ==> stack == [])
    ensures i + 3 <= |text|
    ensures Pol(text, i, WaitOperator, count, stack, out, limit) ==
      Pol(text, i + 3, WaitOperand, count, stack + [if and then AND else OR], out, limit)
  {
    var s := if and then " & " else " | ";
    assert forall k :: 0 <= k < 3 ==> text[i..i + 3][k] == s[k];
    assert text[i] == ' ' && text[i + 1] == s[1] && text[i + 2] == ' ';
    SkipBlank(text, i, WaitOperator, count, stack, out, limit);
    assert GetToken(text, i + 1, WaitOperator, count, "") == Lexed(TOpr(if and then AND else OR), i + 2, WaitOperand, count);
    SkipBlank(text, i + 2, WaitOperand, count, stack + [if and then AND else OR], out, limit);
  }

  /** " )" ends a level. */
  lemma {:induction false} StepClose(text: string, i: nat, count: int, stack: seq<int>, out: seq<Node>, limit: nat)
    requires Has(text, i, " )") && count >= 1
    ensures i + 2 <= |text|
    ensures Pol(text, i, WaitOperator, count, stack, out, limit) == Done(i + 2, WaitOperator, count - 1, out + PopAll(stack))
  {
    assert text[i..i + 2][0] == ' ' && text[i..i + 2][1] == ')';
    SkipBlank(text, i, WaitOperator, count, stack, out, limit);
    assert GetToken(text, i + 1, WaitOperator, count, "") == Lexed(TClose, i + 2, WaitOperator, count - 1);
  }

  lemma {:induction false} StepEnd(text: string, stack: seq<int>, out: seq<Node>, limit: nat)
    ensures Pol(text, |text|, WaitOperator, 0, stack, out, limit) == Done(|text|, WaitOperator, 0, out + PopAll(stack))
  {
  }

  /** What the parser does with a parenthesized level that reads as out'. */
  lemma {:induction false} StepOpen(text: string, i: nat, count: int, stack: seq<int>, out: seq<Node>, limit: nat, n: PolResult)
    requires Has(text, i, "( ") && i + 2 <= |text| && n.Done? && n.i <= |text| && n.st == WaitOperator
    requires Pol(text, i + 2, WaitOperand, count + 1, [], out, limit) == n
    ensures Pol(text, i, WaitOperand, count, stack, out, limit) ==
      if stack != [] && IsTight(stack[|stack| - 1])
      then Pol(text, n.i, n.st, n.count, stack[..|stack| - 1], n.out + [Node(false, stack[|stack| - 1])], limit)
      else Pol(text, n.i, n.st, n.count, stack, n.out, limit)
  {
    assert text[i..i + 2][0] == '(' && text[i..i + 2][1] == ' ';
    assert GetToken(text, i, WaitOperand, count, "") == Lexed(TOpen, i + 1, WaitOperand, count + 1);
    SkipBlank(text, i + 1, WaitOperand, count + 1, [], out, limit);
  }

  // ---- Reading an operand -------------------------------------------------

  /** The parser before an operand, with the operands c pending. */
  ghost function Before(text: string, i: nat, count: int, base: seq<int>, o: seq<Node>, c: seq<Query>, limit: nat): PolResult
    requires i <= |text|
  {
    Pol(text, i, WaitOperand, count, base + Ands(|c|), o + NodesAll(c), limit)
  }

  /** The parser behind an operand, with the operands r pending, the last of them complete. */
  ghost function Behind(text: string, e: nat, count: int, base: seq<int>, o: seq<Node>, r: seq<Query>, limit: nat): PolResult
    requires e <= |text| && r != []
  {
    Pol(text, e, WaitOperator, count, base + Ands(|r| - 1), o + NodesAll(r), limit)
  }

  lemma {:induction false} FedUnit(c: seq<Query>, u: Query, o: seq<Node>)
    ensures o + NodesAll(c) + Nodes(u) + AndNodes(|c|) == o + NodesAll([Conj(c + [u])])
  {
    hide Nodes, Conj, AndNodes;
    NodesAllSnoc(c, u);
    ConjNodes(c + [u]);
    var q := Conj(c + [u]);
    assert [q][1..] == [];
    assert NodesAll([q]) == Nodes(q);
    assert NodesAll(c) + Nodes(u) + AndNodes(|c|) == Nodes(q);
  }

  lemma {:induction false} ProcessVal(text: string, i: nat, count: int, v: int, c: seq<Query>, base: seq<int>, o: seq<Node>, limit: nat)
    requires IsBase(base) && Has(text, i, Decimal(v)) && Stops(text, i + |Decimal(v)|, count)
    ensures i + |Decimal(v)| <= |text| &&
      Before(text, i, count, base, o, c, limit) == Behind(text, i + |Decimal(v)|, count, base, o, [Conj(c + [Val(v)])], limit)
  {
    hide Pol, Decimal, PopTight, NodesAll, Conj, Ands, AndNodes, IsBase, Has;
    var stack, out := base + Ands(|c|), o + NodesAll(c);
    StepVal(text, i, v, count, stack, out, limit);
    PopAnds(base, |c|, out + [Node(true, v)]);
    FedUnit(c, Val(v), o);
    NoAnds(base);
  }

  lemma {:induction false} ProcessNotVal(text: string, i: nat, count: int, v: int, c: seq<Query>, base: seq<int>, o: seq<Node>, limit: nat)
    requires IsBase(base) && Has(text, i, "!" + Decimal(v)) && Stops(text, i + 1 + |Decimal(v)|, count) && |base| + |c| + 1 <= limit
    ensures i + 1 + |Decimal(v)| <= |text| &&
      Before(text, i, count, base, o, c, limit) == Behind(text, i + 1 + |Decimal(v)|, count, base, o, [Conj(c + [Not(Val(v))])], limit)
  {
    hide Pol, Decimal, PopTight, NodesAll, Conj, Ands, AndNodes, IsBase, Has;
    var stack, out := base + Ands(|c|), o + NodesAll(c);
    HasFirst(text, i, "!" + Decimal(v));
    HasSplit(text, i, "!", Decimal(v));
    AndsLast(base, |c|);
    StepNot(text, i, count, stack, out, limit);
    StepVal(text, i + 1, v, count, stack + [NOT], out, limit);
    var x, n := Node(true, v), Node(false, NOT);
    PopTightLast(stack, out + [x], NOT);
    PopAnds(base, |c|, out + [x] + [n]);
    NotNodes(v);
    assert out + [x] + [n] == out + Nodes(Not(Val(v)));
    FedUnit(c, Not(Val(v)), o);
    NoAnds(base);
  }

  lemma {:induction false} NotNodes(v: int)
    ensures Nodes(Not(Val(v))) == [Node(true, v)] + [Node(false, NOT)]
  {
  }

  /** "( q )" as a text. */
  function Parens(q: Query): string { "( " + (Infix(q, true) + " )") }

  /** A parenthesized query, read as a level of its own. */
  ghost predicate ReadsLevel(text: string, i: nat, count: int, q: Query, out: seq<Node>, limit: nat) {
    && i + |Parens(q)| <= |text| && i + 2 <= |text|
    && Pol(text, i + 2, WaitOperand, count + 1, [], out, limit) == Done(i + |Parens(q)|, WaitOperator, count, out + Nodes(Read(q)))
  }

  lemma {:induction false} ProcessNotLevel(text: string, i: nat, count: int, p: Query, c: seq<Query>, base: seq<int>, o: seq<Node>, limit: nat)
    requires IsBase(base) && !p.Val? && Has(text, i, "!" + Parens(p)) && |base| + |c| + 1 <= limit
    requires ReadsLevel(text, i + 1, count, p, o + NodesAll(c), limit)
    ensures Before(text, i, count, base, o, c, limit) ==
      Behind(text, i + 1 + |Parens(p)|, count, base, o, c + [Not(Read(p))], limit)
  {
    hide Pol, NodesAll, Conj, Ands, AndNodes, IsBase, Has, Infix, Read, Nodes;
    var stack, out := base + Ands(|c|), o + NodesAll(c);
    HasFirst(text, i, "!" + Parens(p));
    HasSplit(text, i, "!", Parens(p));
    HasSplit(text, i + 1, "( ", Infix(p, true) + " )");
    AndsLast(base, |c|);
    StepNot(text, i, count, stack, out, limit);
    StepOpen(text, i + 1, count, stack + [NOT], out, limit, Done(i + 1 + |Parens(p)|, WaitOperator, count, out + Nodes(Read(p))));
    var s := stack + [NOT];
    assert s[..|s| - 1] == stack && s[|s| - 1] == NOT;
    NodesAllSnoc(c, Not(Read(p)));
    NotNodesOf(Read(p));
    assert out + Nodes(Read(p)) + [Node(false, NOT)] == o + NodesAll(c + [Not(Read(p))]);
  }

  lemma {:induction false} NotNodesOf(p: Query)
    ensures Nodes(Not(p)) == Nodes(p) + [Node(false, NOT)]
  {
  }

  lemma {:induction false} AndNodesOf(l: Query, r: Query)
    ensures Nodes(And(l, r)) == Nodes(l) + Nodes(r) + [Node(false, AND)]
    ensures Nodes(Or(l, r)) == Nodes(l) + Nodes(r) + [Node(false, OR)]
  {
  }

  lemma {:induction false} ProcessOr(text: string, i: nat, count: int, q: Query, c: seq<Query>, base: seq<int>, o: seq<Node>, limit: nat)
    requires IsBase(base) && q.Or? && Has(text, i, Parens(q))
    requires ReadsLevel(text, i, count, q, o + NodesAll(c), limit)
    ensures Before(text, i, count, base, o, c, limit) == Behind(text, i + |Parens(q)|, count, base, o, Feed(q, c), limit)
  {
    hide Pol, NodesAll, Conj, Ands, AndNodes, Has, Infix, Read, Nodes;
    var stack, out, u := base + Ands(|c|), o + NodesAll(c), Read(q);
    HasSplit(text, i, "( ", Infix(q, true) + " )");
    StepOpen(text, i, count, stack, out, limit, Done(i + |Parens(q)|, WaitOperator, count, out + Nodes(u)));
    if c == [] {
      NoAnds(base);
      NodesAllOne(u);
      assert out + Nodes(u) == o + NodesAll([u]);
    } else {
      var d, x := c[..|c| - 1], c[|c| - 1];
      assert c == d + [x];
      AndsLast(base, |d|);
      assert stack[..|stack| - 1] == base + Ands(|d|) && stack[|stack| - 1] == AND;
      NodesAllSnoc(d, x);
      NodesAllSnoc(d, And(x, u));
      AndNodesOf(x, u);
      assert out + Nodes(u) + [Node(false, AND)] == o + NodesAll(d + [And(x, u)]);
    }
  }

  lemma {:induction false} NodesAllOne(u: Query)
    ensures NodesAll([u]) == Nodes(u) && NodesAll([]) == []
  {
    assert [u][1..] == [];
  }

  lemma {:induction false} InfixParts(q: Query)
    ensures q.Val? ==> Infix(q, false) == Decimal(q.v)
    ensures q.Not? && q.q.Val? ==> Infix(q, false) == "!" + Decimal(q.q.v)
    ensures q.Not? && !q.q.Val? ==> Infix(q, false) == "!" + Parens(q.q)
    ensures q.And? ==> Infix(q, false) == Infix(q.l, false) + (" & " + Infix(q.r, false))
    ensures q.Or? ==> Infix(q, false) == Parens(q) && Infix(q, true) == Infix(q.l, false) + (" | " + Infix(q.r, false))
    ensures !q.Or? ==> Infix(q, true) == Infix(q, false)
  {
    if q.And? || q.Or? {
      InfixBinary(q, true);
      InfixBinary(q, false);
      if q.Or? {
        var line := Infix(q, true);
        assert ("( " + line) + " )" == "( " + (line + " )");
      }
    } else if q.Not? {
      InfixNot(q.q);
      if !q.q.Val? {
        var line := Infix(q.q, true);
        assert (("!" + "( ") + line) + " )" == "!" + ("( " + (line + " )"));
      }
    }
  }

  lemma {:induction false} StopsAtBlank(text: string, i: nat, s: string, count: int)
    requires Has(text, i, s) && s != "" && s[0] == ' '
    ensures Stops(text, i, count)
  {
    HasFirst(text, i, s);
  }

  lemma {:induction false} PushAnd(text: string, e: nat, count: int, base: seq<int>, o: seq<Node>, r: seq<Query>, limit: nat)
    requires r != [] && Has(text, e, " & ") && |base| + |r| <= limit
    ensures e + 3 <= |text| && Behind(text, e, count, base, o, r, limit) == Before(text, e + 3, count, base, o, r, limit)
  {
    hide Pol, NodesAll, Ands, Has;
    AndsLast(base, |r| - 1);
    StepOperator(text, e, count, base + Ands(|r| - 1), o + NodesAll(r), limit, true);
  }

  /** Any operand: the parser stands behind its text, with the operands pending that Feed tells. */
  lemma {:induction false} Process(text: string, i: nat, count: int, q: Query, c: seq<Query>, base: seq<int>, o: seq<Node>, limit: nat)
    requires IsBase(base) && count >= 0 && Readable(q, |c|, |base|, limit)
    requires Has(text, i, Infix(q, false)) && Stops(text, i + |Infix(q, false)|, count)
    ensures i + |Infix(q, false)| <= |text|
    ensures Before(text, i, count, base, o, c, limit) == Behind(text, i + |Infix(q, false)|, count, base, o, Feed(q, c), limit)
    decreases q, if q.Or? then 3 else 0
  {
    hide Has, Stops, Infix, Before, Behind, Nodes, NodesAll, Decimal, Parens, ReadsLevel, IsBase;
    InfixParts(q);
    match q
    case Val(v) =>
      ProcessVal(text, i, count, v, c, base, o, limit);
    case Not(p) =>
      if p.Val? {
        ProcessNotVal(text, i, count, p.v, c, base, o, limit);
      } else {
        HasSplit(text, i, "!", Parens(p));
        ParensRead(text, i + 1, count, p, o + NodesAll(c), limit);
        ParensInside(text, i + 1, p);
        ProcessNotLevel(text, i, count, p, c, base, o, limit);
      }
    case And(l, r) =>
      var s, t := Infix(l, false), Infix(r, false);
      HasSplit(text, i, s, " & " + t);
      HasSplit(text, i + |s|, " & ", t);
      StopsAtBlank(text, i + |s|, " & " + t, count);
      Process(text, i, count, l, c, base, o, limit);
      FeedPend(l, c);
      PushAnd(text, i + |s|, count, base, o, Feed(l, c), limit);
      Process(text, i + |s| + 3, count, r, Feed(l, c), base, o, limit);
    case Or(l, r) =>
      ParensRead(text, i, count, q, o + NodesAll(c), limit);
      ParensInside(text, i, q);
      ProcessOr(text, i, count, q, c, base, o, limit);
  }

  lemma {:induction false} ParensInside(text: string, i: nat, q: Query)
    requires Has(text, i, Parens(q))
    ensures i + |Parens(q)| <= |text|
  {
  }

  lemma {:induction false} ParensRead(text: string, i: nat, count: int, q: Query, out: seq<Node>, limit: nat)
    requires count >= 0 && ReadableLevel(q, limit) && Has(text, i, Parens(q))
    ensures ReadsLevel(text, i, count, q, out, limit)
    decreases q, 2
  {
    hide Has, Stops, Infix, Nodes, Pol, Readable;
    var line := Infix(q, true);
    HasSplit(text, i, "( ", line + " )");
    HasSplit(text, i + 2, line, " )");
    StopsAtBlank(text, i + 2 + |line|, " )", count + 1);
    ParensInside(text, i, q);
    var stack, out' := Level(text, i + 2, count + 1, q, out, limit);
    StepClose(text, i + 2 + |line|, count + 1, stack, out', limit);
  }

  lemma {:induction false} Started(text: string, i: nat, count: int, base: seq<int>, o: seq<Node>, limit: nat)
    requires i <= |text|
    ensures Before(text, i, count, base, o, [], limit) == Pol(text, i, WaitOperand, count, base, o, limit)
  {
    hide Pol;
    NoAnds(base);
    assert o + NodesAll([]) == o;
  }

  lemma {:induction false} Finished(base: seq<int>, o: seq<Node>, r: seq<Query>)
    requires IsBase(base) && r != []
    ensures (o + NodesAll(r)) + PopAll(base + Ands(|r| - 1)) == o + Nodes(Conj(r)) + PopAll(base)
  {
    hide Nodes, NodesAll, AndNodes, Conj, PopAll, Ands;
    PopAnds(base, |r| - 1, []);
    ConjNodes(r);
  }

  /** A whole level: what the stack and the output then hold is the query that is read. */
  lemma {:induction false} Level(text: string, i: nat, count: int, q: Query, out: seq<Node>, limit: nat)
      returns (stack: seq<int>, out': seq<Node>)
    requires count >= 0 && ReadableLevel(q, limit) && Has(text, i, Infix(q, true)) && Stops(text, i + |Infix(q, true)|, count)
    ensures i + |Infix(q, true)| <= |text|
    ensures Pol(text, i, WaitOperand, count, [], out, limit) ==
      Pol(text, i + |Infix(q, true)|, WaitOperator, count, stack, out', limit)
    ensures out' + PopAll(stack) == out + Nodes(Read(q))
    decreases q, 1
  {
    hide Has, Stops, Infix, Nodes, NodesAll, Pol, Readable, Ands, Conj, PopAll;
    InfixParts(q);
    if !q.Or? {
      Process(text, i, count, q, [], [], out, limit);
      Started(text, i, count, [], out, limit);
      var r := Feed(q, []);
      stack, out' := [] + Ands(|r| - 1), out + NodesAll(r);
      Finished([], out, r);
      NoOperators();
      assert out + Nodes(Conj(r)) + [] == out + Nodes(Conj(r));
    } else {
      stack, out' := OrLevel(text, i, count, q, out, limit);
    }
  }

  lemma {:induction false} NoOperators()
    ensures PopAll([]) == [] && PopAll([OR]) == [Node(false, OR)]
  {
    assert [OR][..0] == [];
  }

  lemma {:induction false} OrLevel(text: string, i: nat, count: int, q: Query, out: seq<Node>, limit: nat)
      returns (stack: seq<int>, out': seq<Node>)
    requires q.Or? && count >= 0 && ReadableLevel(q, limit) && Has(text, i, Infix(q, true)) && Stops(text, i + |Infix(q, true)|, count)
    ensures i + |Infix(q, true)| <= |text|
    ensures Pol(text, i, WaitOperand, count, [], out, limit) ==
      Pol(text, i + |Infix(q, true)|, WaitOperator, count, stack, out', limit)
    ensures out' + PopAll(stack) == out + Nodes(Read(q))
    decreases q, 0
  {
    hide Has, Stops, Infix, Nodes, NodesAll, Pol, Readable, Conj, PopAll, Ands, JoinedByOr;
    InfixParts(q);
    var s, t := Infix(q.l, false), Infix(q.r, false);
    HasSplit(text, i, s, " | " + t);
    HasSplit(text, i + |s|, " | ", t);
    StopsAtBlank(text, i + |s|, " | " + t, count);
    var l := Feed(q.l, []);
    Started(text, i, count, [], out, limit);
    Process(text, i, count, q.l, [], [], out, limit);
    FeedPend(q.l, []);
    if |l| == 1 {
      var o, r := out + NodesAll(l), Feed(q.r, []);
      OneLeft(l, out);
      NoAnds([]);
      StepOperator(text, i + |s|, count, [], o, limit, false);
      assert [] + [OR] == [OR];
      Started(text, i + |s| + 3, count, [OR], o, limit);
      Process(text, i + |s| + 3, count, q.r, [], [OR], o, limit);
      stack, out' := [OR] + Ands(|r| - 1), o + NodesAll(r);
      Finished([OR], o, r);
      NoOperators();
      AndNodesOf(l[0], Conj(r));
      assert out + Nodes(l[0]) + Nodes(Conj(r)) + [Node(false, OR)] == out + (Nodes(l[0]) + Nodes(Conj(r)) + [Node(false, OR)]);
    } else {
      var j := JoinedByOr(l);
      var r := Feed(q.r, j);
      OrPending(text, i + |s|, count, out, l, limit);
      Process(text, i + |s| + 3, count, q.r, j, [], out, limit);
      stack, out' := [] + Ands(|r| - 1), out + NodesAll(r);
      Finished([], out, r);
      NoOperators();
      assert out + Nodes(Conj(r)) + [] == out + Nodes(Conj(r));
    }
  }

  /** A | while conjunctions are pending goes straight to the output. */
  lemma {:induction false} OrPending(text: string, e: nat, count: int, o: seq<Node>, c: seq<Query>, limit: nat)
    requires |c| >= 2 && Has(text, e, " | ")
    ensures |JoinedByOr(c)| == |c| - 1
    ensures e + 3 <= |text| && Behind(text, e, count, [], o, c, limit) == Before(text, e + 3, count, [], o, JoinedByOr(c), limit)
  {
    hide Pol, NodesAll, Ands, Nodes;
    var d, x, y := c[..|c| - 2], c[|c| - 2], c[|c| - 1];
    assert c == (d + [x]) + [y];
    NodesAllSnoc(d + [x], y);
    NodesAllSnoc(d, x);
    NodesAllSnoc(d, Or(x, y));
    AndNodesOf(x, y);
    AndsLast([], |c| - 2);
    StepOrPending(text, e, count, [] + Ands(|c| - 1), o + NodesAll(c), limit);
    assert o + NodesAll(c) + [Node(false, OR)] == o + NodesAll(JoinedByOr(c));
  }

  lemma {:induction false} StepOrPending(text: string, i: nat, count: int, stack: seq<int>, out: seq<Node>, limit: nat)
    requires Has(text, i, " | ") && stack != []
    ensures i + 3 <= |text|
    ensures Pol(text, i, WaitOperator, count, stack, out, limit) == Pol(text, i + 3, WaitOperand, count, stack, out + [Node(false, OR)], limit)
  {
    var s := " | ";
    assert forall k :: 0 <= k < 3 ==> text[i..i + 3][k] == s[k];
    assert text[i] == ' ' && text[i + 1] == '|' && text[i + 2] == ' ';
    SkipBlank(text, i, WaitOperator, count, stack, out, limit);
    assert GetToken(text, i + 1, WaitOperator, count, "") == Lexed(TOpr(OR), i + 2, WaitOperand, count);
    SkipBlank(text, i + 2, WaitOperand, count, stack, out + [Node(false, OR)], limit);
  }

  lemma {:induction false} OneLeft(l: seq<Query>, out: seq<Node>)
    requires |l| == 1
    ensures out + NodesAll(l) == out + Nodes(l[0])
  {
    assert l == [l[0]];
    NodesAllOne(l[0]);
  }

  // ---- The round trip -----------------------------------------------------

  /** makepol on a whole text. */
  function Polish(text: string, limit: nat): PolResult {
    Pol(text, 0, WaitOperand, 0, [], [], limit)
  }

  /** What is read back from the text of a query; a clean query keeps its meaning. */
  lemma {:induction false} PrintedIsRead(q: Query, limit: nat)
    requires ReadableLevel(q, limit)
    ensures Polish(Infix(q, true), limit) == Done(|Infix(q, true)|, WaitOperator, 0, Nodes(Read(q)))
    ensures Clean(q) ==> forall has :: Eval(Read(q), has) == Eval(q, has)
  {
    hide Infix, Nodes, Pol, Eval, ReadableLevel, Read, Clean;
    var text := Infix(q, true);
    assert text[0..0 + |text|] == text;
    var stack, out := Level(text, 0, 0, q, [], limit);
    StepEnd(text, stack, out, limit);
    assert [] + Nodes(Read(q)) == Nodes(Read(q));
    if Clean(q) {
      forall has: int -> bool ensures Eval(Read(q), has) == Eval(q, has) {
        ReadMeans(q, has);
      }
    }
  }

  /** Negation of values only. */
  predicate NotsOnValues(q: Query) {
    match q
    case Val(v) => true
    case Not(p) => p.Val?
    case And(l, r) => NotsOnValues(l) && NotsOnValues(r)
    case Or(l, r) => NotsOnValues(l) && NotsOnValues(r)
  }

  lemma {:induction false} ValuesPend(q: Query, k: nat)
    requires NotsOnValues(q) && k <= 1
    ensures Pend(q, k) == 0
  {
    if q.And? {
      ValuesPend(q.l, k);
      ValuesPend(q.r, 1);
    }
  }

  lemma {:induction false} ValuesReadable(q: Query, k: nat, b: nat)
    requires NotsOnValues(q) && k <= 1 && b <= 1
    ensures Readable(q, k, b, 3)
    decreases q, if q.Or? then 1 else 0
  {
    match q
    case Val(v) =>
    case Not(p) =>
    case And(l, r) =>
      ValuesPend(l, k);
      ValuesReadable(l, k, b);
      ValuesReadable(r, 1, b);
    case Or(l, r) =>
      ValuesReadableLevel(q);
  }

  /** When only values are negated, a stack of three operators is enough. */
  lemma {:induction false} ValuesReadableLevel(q: Query)
    requires NotsOnValues(q)
    ensures ReadableLevel(q, 3)
    decreases q, if q.Or? then 0 else 1
  {
    if q.Or? {
      ValuesReadable(q.l, 0, 0);
      ValuesPend(q.l, 0);
      ValuesReadable(q.r, 0, 1);
    } else {
      ValuesReadable(q, 0, 0);
    }
  }

  lemma {:induction false} ValuesClean(q: Query)
    requires NotsOnValues(q)
    ensures Clean(q)
  {
    if q.And? || q.Or? {
      ValuesClean(q.l);
      ValuesClean(q.r);
      ValuesPend(q.l, 0);
    }
  }

  /** Every query whose negations stand on values survives printing and parsing, with at most three operators stacked. */
  lemma {:induction false} ValuesRoundTrip(q: Query)
    requires NotsOnValues(q)
    ensures Polish(Infix(q, true), 3) == Done(|Infix(q, true)|, WaitOperator, 0, Nodes(Read(q)))
    ensures forall has :: Eval(Read(q), has) == Eval(q, has)
  {
    ValuesReadableLevel(q);
    ValuesClean(q);
    PrintedIsRead(q, 3);
  }
}

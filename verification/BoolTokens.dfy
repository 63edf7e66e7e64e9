/** What makepol puts out for an accepted text: every number in the order of the text, every operator once. */
module BoolTokens {
  import opened Texts
  import opened BoolQuery
  import opened BoolText
  import opened BoolRead
  import opened BoolPostfix
  import opened BoolGrammar

  // ---- Numbers and operators ----------------------------------------------

  /** The numbers and operators of a derivation from left to right. */
  function Written(e: Expr): seq<Node> {
    match e
    case Number(pre, s) => [Node(true, Atoi(s))]
    case Neg(pre, f) => [Node(false, NOT)] + Written(f)
    case Paren(pre, f, post) => Written(f)
    case Binary(l, mid, op, r) => Written(l) + ([Node(false, if op == '&' then AND else OR)] + Written(r))
  }

  /** The numbers among nodes. */
  function Vals(s: seq<Node>): seq<int> {
    if s == [] then []
    else Vals(s[..|s| - 1]) + if s[|s| - 1].isVal then [s[|s| - 1].val] else []
  }

  lemma {:induction false} ValsConcat(s: seq<Node>, t: seq<Node>)
    ensures Vals(s + t) == Vals(s) + Vals(t)
  {
    if t == [] {
      assert s + t == s;
    } else {
      assert (s + t)[..|s + t| - 1] == s + t[..|t| - 1];
      ValsConcat(s, t[..|t| - 1]);
    }
  }

  lemma {:induction false} ValsSnoc(s: seq<Node>, n: Node)
    ensures Vals(s + [n]) == Vals(s) + if n.isVal then [n.val] else []
  {
    assert (s + [n])[..|s|] == s;
  }

  /** The numbers and operators from a position on. */
  function Tokens(text: string, i: nat, st: LexState): seq<Node>
    requires i <= |text| && st != WaitEndOperand
    decreases |text| - i
  {
    if i == |text| then []
    else
      var c := text[i];
      if c == ' ' then Tokens(text, i + 1, st)
      else if st == WaitOperand then
        if IsDigit(c) || c == '-' then
          RunEnds(text, i + 1);
          var j := i + 1 + DigitRun(text, i + 1);
          [Node(true, Atoi(text[i..j]))] + Tokens(text, j, WaitOperator)
        else if c == '!' then [Node(false, NOT)] + Tokens(text, i + 1, WaitOperand)
        else if c == '(' then Tokens(text, i + 1, WaitOperand)
        else []
      else if c == ')' then Tokens(text, i + 1, WaitOperator)
      else if c == '&' || c == '|' then [Node(false, if c == '&' then AND else OR)] + Tokens(text, i + 1, WaitOperand)
      else []
  }

  /** Two lists hold the same numbers in the same order, and the same operators. */
  ghost predicate Same(s: seq<Node>, t: seq<Node>) {
    multiset(s) == multiset(t) && Vals(s) == Vals(t)
  }

  // ---- What makepol keeps --------------------------------------------------

  lemma {:induction false} NumberValue(text: string, i: nat, count: int, nnn: string)
    requires i <= |text| && NoNul(text)
    ensures var r, j := GetToken(text, i, WaitEndOperand, count, nnn), i + DigitRun(text, i);
      j <= |text| && r.i == j && r.st == WaitOperator && (r.tok != TErr ==> r.tok == TVal(Atoi(nnn + text[i..j])))
    decreases |text| - i
  {
    hide Atoi;
    NulIsNoDigit();
    if i < |text| && IsDigit(text[i]) {
      NumberValue(text, i + 1, count, nnn + [text[i]]);
      var j := i + DigitRun(text, i);
      assert nnn + text[i..j] == (nnn + [text[i]]) + text[i + 1..j];
    } else {
      assert nnn + text[i..i] == nnn;
    }
  }

  /** What one token takes off. */
  function Taken(tok: Token): seq<Node> {
    match tok
    case TVal(v) => [Node(true, v)]
    case TOpr(op) => [Node(false, op)]
    case _ => []
  }

  lemma {:induction false} NumberTaken(text: string, i: nat, count: int)
    requires NoNul(text) && i < |text| && (IsDigit(text[i]) || text[i] == '-')
    ensures var t := GetToken(text, i + 1, WaitEndOperand, count, [text[i]]);
      t.tok != TErr ==> Tokens(text, i, WaitOperand) == Taken(t.tok) + Tokens(text, t.i, t.st)
  {
    hide Atoi, GetToken;
    NumberValue(text, i + 1, count, [text[i]]);
    var j := i + 1 + DigitRun(text, i + 1);
    assert [text[i]] + text[i + 1..j] == text[i..j];
  }

  lemma {:induction false} TokenTaken(text: string, i: nat, st: LexState, count: int)
    requires NoNul(text) && i <= |text| && st != WaitEndOperand
    ensures var t := GetToken(text, i, st, count, "");
      t.tok != TErr ==> Tokens(text, i, st) == Taken(t.tok) + Tokens(text, t.i, t.st)
    decreases |text| - i
  {
    hide Atoi, DigitRun;
    NulIsNoDigit();
    var t := GetToken(text, i, st, count, "");
    if i < |text| {
      var c := text[i];
      if c == ' ' {
        TokenTaken(text, i + 1, st, count);
      } else if st == WaitOperand && (IsDigit(c) || c == '-') {
        NumberTaken(text, i, count);
      }
    }
  }

  lemma {:induction false} PopAllVals(stack: seq<int>)
    ensures Vals(PopAll(stack)) == []
  {
    if stack != [] {
      var n, rest := Node(false, stack[|stack| - 1]), PopAll(stack[..|stack| - 1]);
      PopAllVals(stack[..|stack| - 1]);
      ValsConcat([n], rest);
    }
  }

  lemma {:induction false} PopTightKeeps(stack: seq<int>, out: seq<Node>)
    ensures var p := PopTight(stack, out);
      multiset(p.1) + multiset(PopAll(p.0)) == multiset(out) + multiset(PopAll(stack)) && Vals(p.1) == Vals(out)
  {
    if stack != [] && IsTight(stack[|stack| - 1]) {
      var n, rest := Node(false, stack[|stack| - 1]), stack[..|stack| - 1];
      PopTightKeeps(rest, out + [n]);
      ValsSnoc(out, n);
      assert multiset([n] + PopAll(rest)) == multiset{n} + multiset(PopAll(rest));
    }
  }

  /** What stands in the output, on the stack and in the rest of the text. */
  ghost function Mass(text: string, i: nat, st: LexState, stack: seq<int>, out: seq<Node>): multiset<Node>
    requires i <= |text| && st != WaitEndOperand
  {
    multiset(out) + multiset(PopAll(stack)) + multiset(Tokens(text, i, st))
  }

  ghost function Line(text: string, i: nat, st: LexState, out: seq<Node>): seq<int>
    requires i <= |text| && st != WaitEndOperand
  {
    Vals(out) + Vals(Tokens(text, i, st))
  }

  lemma {:induction false} PushKeeps(stack: seq<int>, op: int)
    ensures multiset(PopAll(stack + [op])) == multiset(PopAll(stack)) + multiset{Node(false, op)}
  {
    assert (stack + [op])[..|stack|] == stack;
    assert multiset([Node(false, op)] + PopAll(stack)) == multiset{Node(false, op)} + multiset(PopAll(stack));
  }

  /** One token moved from the text. */
  lemma {:induction false} TakeOne(text: string, i: nat, st: LexState, n: Node, j: nat, su: LexState, stack: seq<int>, out: seq<Node>)
    requires i <= |text| && j <= |text| && st != WaitEndOperand && su != WaitEndOperand
    requires Tokens(text, i, st) == [n] + Tokens(text, j, su)
    ensures Mass(text, i, st, stack, out) == Mass(text, j, su, stack, out + [n])
    ensures Line(text, i, st, out) == Line(text, j, su, out + [n])
    ensures !n.isVal ==> Mass(text, i, st, stack, out) == Mass(text, j, su, stack + [n.val], out)
    ensures !n.isVal ==> Line(text, i, st, out) == Line(text, j, su, out)
  {
    hide Tokens, PopAll, Vals;
    var rest := Tokens(text, j, su);
    Moved(multiset(out), multiset(PopAll(stack)), multiset(rest), n);
    NoVals();
    ValsConcat([n], rest);
    assert [n] == [] + [n];
    ValsSnoc([], n);
    ValsSnoc(out, n);
    PushKeeps(stack, n.val);
    assert multiset([n] + rest) == multiset{n} + multiset(rest);
  }

  lemma {:induction false} NoVals()
    ensures Vals([]) == []
  {
  }

  lemma {:induction false} PopOne(text: string, i: nat, st: LexState, stack: seq<int>, out: seq<Node>)
    requires i <= |text| && st != WaitEndOperand && stack != []
    ensures var n, rest := Node(false, stack[|stack| - 1]), stack[..|stack| - 1];
      Mass(text, i, st, stack, out) == Mass(text, i, st, rest, out + [n]) && Line(text, i, st, out) == Line(text, i, st, out + [n])
  {
    hide Tokens, PopAll, Vals;
    var n, rest := Node(false, stack[|stack| - 1]), stack[..|stack| - 1];
    assert stack == rest + [stack[|stack| - 1]];
    PushKeeps(rest, stack[|stack| - 1]);
    ValsSnoc(out, n);
    Moved(multiset(out), multiset(PopAll(rest)), multiset(Tokens(text, i, st)), n);
  }

  lemma {:induction false} Moved(a: multiset<Node>, b: multiset<Node>, c: multiset<Node>, n: Node)
    ensures a + (b + multiset{n}) + c == (a + multiset{n}) + b + c
    ensures a + b + (multiset{n} + c) == (a + multiset{n}) + b + c
  {
  }

  lemma {:induction false} PopEvery(text: string, i: nat, st: LexState, stack: seq<int>, out: seq<Node>)
    requires i <= |text| && st != WaitEndOperand
    ensures Mass(text, i, st, stack, out) == Mass(text, i, st, [], out + PopAll(stack))
    ensures Line(text, i, st, out) == Line(text, i, st, out + PopAll(stack))
  {
    hide Tokens;
    PopAllVals(stack);
    ValsConcat(out, PopAll(stack));
  }

  /** makepol neither loses, nor adds, nor reorders a number, and neither loses nor adds an operator. */
  lemma {:induction false} PolKeeps(text: string, i: nat, st: LexState, count: int, stack: seq<int>, out: seq<Node>, limit: nat)
    requires NoNul(text) && i <= |text| && st != WaitEndOperand
    ensures var r := Pol(text, i, st, count, stack, out, limit);
      r.Done? ==> Mass(text, r.i, r.st, [], r.out) == Mass(text, i, st, stack, out) && Line(text, r.i, r.st, r.out) == Line(text, i, st, out)
    decreases |text| - i
  {
    hide GetToken, PopTight, PopAll, Mass, Line, Tokens;
    var t := GetToken(text, i, st, count, "");
    TokenTaken(text, i, st, count);
    match t.tok
    case TErr =>
    case TEnd =>
      NoToken(text, i, st, t.i, t.st, stack, out);
      PopEvery(text, t.i, t.st, stack, out);
    case TClose =>
      NoToken(text, i, st, t.i, t.st, stack, out);
      PopEvery(text, t.i, t.st, stack, out);
    case TVal(v) =>
      var n := Node(true, v);
      TakeOne(text, i, st, n, t.i, t.st, stack, out);
      var p := PopTight(stack, out + [n]);
      TightKeeps(text, t.i, t.st, stack, out + [n]);
      PolKeeps(text, t.i, t.st, t.count, p.0, p.1, limit);
    case TOpr(op) =>
      TakeOne(text, i, st, Node(false, op), t.i, t.st, stack, out);
      if stack != [] && op == OR {
        PolKeeps(text, t.i, t.st, t.count, stack, out + [Node(false, OR)], limit);
      } else if |stack| != limit {
        PolKeeps(text, t.i, t.st, t.count, stack + [op], out, limit);
      }
    case TOpen =>
      NoToken(text, i, st, t.i, t.st, stack, out);
      var n := Pol(text, t.i, t.st, t.count, [], out, limit);
      PolKeeps(text, t.i, t.st, t.count, [], out, limit);
      if n.Done? {
        Nested(text, t.i, t.st, n.i, n.st, stack, out, n.out);
        if stack != [] && IsTight(stack[|stack| - 1]) {
          PopOne(text, n.i, n.st, stack, n.out);
          PolKeeps(text, n.i, n.st, n.count, stack[..|stack| - 1], n.out + [Node(false, stack[|stack| - 1])], limit);
        } else {
          PolKeeps(text, n.i, n.st, n.count, stack, n.out, limit);
        }
      }
  }

  lemma {:induction false} NoToken(text: string, i: nat, st: LexState, j: nat, su: LexState, stack: seq<int>, out: seq<Node>)
    requires i <= |text| && j <= |text| && st != WaitEndOperand && su != WaitEndOperand
    requires Tokens(text, i, st) == [] + Tokens(text, j, su)
    ensures Mass(text, i, st, stack, out) == Mass(text, j, su, stack, out) && Line(text, i, st, out) == Line(text, j, su, out)
  {
    hide Tokens, PopAll, Vals;
    assert [] + Tokens(text, j, su) == Tokens(text, j, su);
  }

  lemma {:induction false} TightKeeps(text: string, i: nat, st: LexState, stack: seq<int>, out: seq<Node>)
    requires i <= |text| && st != WaitEndOperand
    ensures var p := PopTight(stack, out);
      Mass(text, i, st, stack, out) == Mass(text, i, st, p.0, p.1) && Line(text, i, st, out) == Line(text, i, st, p.1)
  {
    hide Tokens;
    PopTightKeeps(stack, out);
  }

  lemma {:induction false} NothingPopped()
    ensures PopAll([]) == []
  {
  }

  lemma {:induction false} MassSplit(text: string, i: nat, st: LexState, stack: seq<int>, out: seq<Node>)
    requires i <= |text| && st != WaitEndOperand
    ensures Mass(text, i, st, stack, out) == Mass(text, i, st, [], out) + multiset(PopAll(stack))
  {
    hide Tokens, PopAll;
    NothingPopped();
  }

  /** What an inner level keeps, it keeps beside the stack of the outer one. */
  lemma {:induction false} Nested(text: string, i: nat, st: LexState, j: nat, su: LexState, stack: seq<int>, out: seq<Node>, more: seq<Node>)
    requires i <= |text| && j <= |text| && st != WaitEndOperand && su != WaitEndOperand
    requires Mass(text, j, su, [], more) == Mass(text, i, st, [], out)
    ensures Mass(text, j, su, stack, more) == Mass(text, i, st, stack, out)
  {
    hide Tokens, PopAll, Vals;
    NothingPopped();
    MassSplit(text, i, st, stack, out);
    MassSplit(text, j, su, stack, more);
  }

  // ---- What a derivation writes --------------------------------------------

  lemma {:induction false} TokensBlanks(text: string, i: nat, n: nat, st: LexState)
    requires Has(text, i, Blanks(n)) && st != WaitEndOperand
    ensures Tokens(text, i, st) == Tokens(text, i + n, st)
    decreases n
  {
    if n > 0 {
      assert text[i] == text[i..i + n][0] == ' ';
      assert text[i + 1..i + 1 + (n - 1)] == text[i..i + n][1..] == Blanks(n - 1);
      TokensBlanks(text, i + 1, n - 1, st);
    }
  }

  lemma {:induction false} TokensNumeral(text: string, i: nat, s: string)
    requires Has(text, i, s) && Numeral(s) && !IsDigit(At(text, i + |s|))
    ensures Tokens(text, i, WaitOperand) == [Node(true, Atoi(s))] + Tokens(text, i + |s|, WaitOperator)
  {
    hide Atoi;
    assert forall k :: 0 <= k < |s| ==> text[i + k] == text[i..i + |s|][k] == s[k];
    assert forall k :: i + 1 <= k < i + |s| ==> text[k] == s[k - i];
    RunIs(text, i + 1, |s| - 1);
  }

  lemma {:induction false} TokensMark(text: string, i: nat, st: LexState)
    requires i < |text| && Mark(text[i]) && st != WaitEndOperand
    ensures var c := text[i];
      if st == WaitOperand then
        (c == '!' ==> Tokens(text, i, st) == [Node(false, NOT)] + Tokens(text, i + 1, WaitOperand)) &&
        (c == '(' ==> Tokens(text, i, st) == Tokens(text, i + 1, WaitOperand))
      else
        (c == ')' ==> Tokens(text, i, st) == Tokens(text, i + 1, WaitOperator)) &&
        (c == '&' || c == '|' ==>
          Tokens(text, i, st) == [Node(false, if c == '&' then AND else OR)] + Tokens(text, i + 1, WaitOperand))
  {
  }

  /** From an expression on, the text holds what the expression writes, and the rest. */
  lemma {:induction false} TokensExpr(text: string, i: nat, e: Expr)
    requires Has(text, i, Spelled(e)) && Proper(e) && !IsDigit(At(text, i + |Spelled(e)|))
    ensures i + |Spelled(e)| <= |text| && Tokens(text, i, WaitOperand) == Written(e) + Tokens(text, i + |Spelled(e)|, WaitOperator)
    decreases e, 1
  {
    hide IsDigit, Numeral, Has, Tokens, Atoi;
    HasWithin(text, i, Spelled(e));
    match e
    case Number(pre, s) =>
      HasSplit(text, i, Blanks(pre), s);
      TokensBlanks(text, i, pre, WaitOperand);
      TokensNumeral(text, i + pre, s);
    case Neg(pre, f) =>
      HasSplit(text, i, Blanks(pre), "!" + Spelled(f));
      TokensBlanks(text, i, pre, WaitOperand);
      HasChar(text, i + pre, '!', Spelled(f));
      TokensMark(text, i + pre, WaitOperand);
      TokensExpr(text, i + pre + 1, f);
      var rest := Tokens(text, i + |Spelled(e)|, WaitOperator);
      assert [Node(false, NOT)] + (Written(f) + rest) == ([Node(false, NOT)] + Written(f)) + rest;
    case Paren(pre, f, post) =>
      HasSplit(text, i, Blanks(pre), "(" + (Spelled(f) + (Blanks(post) + ")")));
      TokensBlanks(text, i, pre, WaitOperand);
      TokensParen(text, i + pre, f, post);
    case Binary(l, mid, op, r) =>
      TokensBinary(text, i, l, mid, op, r);
  }

  lemma {:induction false} TokensParen(text: string, i: nat, f: Expr, post: nat)
    requires Has(text, i, "(" + (Spelled(f) + (Blanks(post) + ")"))) && Proper(f)
    ensures var n := 1 + |Spelled(f)| + post + 1;
      i + n <= |text| && Tokens(text, i, WaitOperand) == Written(f) + Tokens(text, i + n, WaitOperator)
    decreases f, 2
  {
    hide IsDigit, Has, Tokens, Spelled, Written;
    HasChar(text, i, '(', Spelled(f) + (Blanks(post) + ")"));
    TokensMark(text, i, WaitOperand);
    HasSplit(text, i + 1, Spelled(f), Blanks(post) + ")");
    var k := i + 1 + |Spelled(f)|;
    PlainMark();
    assert ")" == [')'] + "";
    NotDigit(text, k, post, ')', "");
    TokensExpr(text, i + 1, f);
    HasSplit(text, k, Blanks(post), ")");
    TokensBlanks(text, k, post, WaitOperator);
    HasChar(text, k + post, ')', "");
    TokensMark(text, k + post, WaitOperator);
  }

  lemma {:induction false} TokensBinary(text: string, i: nat, l: Expr, mid: nat, op: char, r: Expr)
    requires Has(text, i, Spelled(l) + (Blanks(mid) + ([op] + Spelled(r))))
    requires Proper(l) && Proper(r) && (op == '&' || op == '|')
    requires !IsDigit(At(text, i + |Spelled(l)| + mid + 1 + |Spelled(r)|))
    ensures var n := |Spelled(l)| + mid + 1 + |Spelled(r)|;
      i + n <= |text| && Tokens(text, i, WaitOperand) == Written(Binary(l, mid, op, r)) + Tokens(text, i + n, WaitOperator)
    decreases Binary(l, mid, op, r), 0
  {
    hide IsDigit, Has, Tokens, Spelled, Written;
    HasSplit(text, i, Spelled(l), Blanks(mid) + ([op] + Spelled(r)));
    var k := i + |Spelled(l)|;
    PlainMark();
    NotDigit(text, k, mid, op, Spelled(r));
    TokensExpr(text, i, l);
    HasSplit(text, k, Blanks(mid), [op] + Spelled(r));
    TokensBlanks(text, k, mid, WaitOperator);
    HasChar(text, k + mid, op, Spelled(r));
    TokensMark(text, k + mid, WaitOperator);
    TokensExpr(text, k + mid + 1, r);
    BinaryWritten(l, mid, op, r, Tokens(text, k + mid + 1 + |Spelled(r)|, WaitOperator));
  }

  lemma {:induction false} BinaryWritten(l: Expr, mid: nat, op: char, r: Expr, rest: seq<Node>)
    ensures Written(l) + ([Node(false, if op == '&' then AND else OR)] + (Written(r) + rest)) == Written(Binary(l, mid, op, r)) + rest
  {
  }

  lemma {:induction false} TokensWhole(text: string, e: Expr, post: nat)
    requires Spells(text, e, post)
    ensures Tokens(text, 0, WaitOperand) == Written(e)
  {
    hide Tokens, Written;
    var n := |Spelled(e)|;
    assert text[..n] == Spelled(e) && text[n..n + post] == Blanks(post);
    assert !IsDigit(At(text, n)) by {
      assert post > 0 ==> text[n] == text[n..n + post][0];
    }
    TokensExpr(text, 0, e);
    TokensBlanks(text, n, post, WaitOperator);
    NoneLeft(text);
    assert Written(e) + [] == Written(e);
  }

  lemma {:induction false} NoneLeft(text: string)
    ensures Tokens(text, |text|, WaitOperator) == []
  {
  }

  /** A level that was not opened ends with the text. */
  lemma {:induction false} EndsAtEnd(text: string, i: nat, st: LexState, stack: seq<int>, out: seq<Node>, limit: nat)
    requires NoNul(text) && i <= |text| && st != WaitEndOperand
    ensures var r := Pol(text, i, st, 0, stack, out, limit); r.Done? ==> r.i == |text| && r.st == WaitOperator
    decreases |text| - i
  {
    hide GetToken, PopTight, PopAll, Scan;
    var t := GetToken(text, i, st, 0, "");
    TokenScan(text, i, st, 0);
    match t.tok
    case TErr =>
    case TEnd => EndToken(text, i, st);
    case TClose =>
    case TVal(v) =>
      var p := PopTight(stack, out + [Node(true, v)]);
      EndsAtEnd(text, t.i, t.st, p.0, p.1, limit);
    case TOpr(op) =>
      if stack != [] && op == OR {
        EndsAtEnd(text, t.i, t.st, stack, out + [Node(false, OR)], limit);
      } else if |stack| != limit {
        EndsAtEnd(text, t.i, t.st, stack + [op], out, limit);
      }
    case TOpen =>
      var n := Pol(text, t.i, t.st, t.count, [], out, limit);
      PolScan(text, t.i, t.st, 1, [], out, limit);
      if n.Done? {
        if stack != [] && IsTight(stack[|stack| - 1]) {
          EndsAtEnd(text, n.i, n.st, stack[..|stack| - 1], n.out + [Node(false, stack[|stack| - 1])], limit);
        } else {
          EndsAtEnd(text, n.i, n.st, stack, n.out, limit);
        }
      }
  }

  lemma {:induction false} EndToken(text: string, i: nat, st: LexState)
    requires NoNul(text) && i <= |text| && st != WaitEndOperand && GetToken(text, i, st, 0, "").tok == TEnd
    ensures var t := GetToken(text, i, st, 0, ""); t.i == |text| && t.st == WaitOperator
    decreases |text| - i
  {
    Kinds(text, i, st, 0, "");
    if i < |text| {
      EndToken(text, i + 1, st);
    }
  }

  /** Whatever derivation an accepted text has, makepol puts out exactly the numbers and operators the derivation writes,
      the numbers in their order. */
  lemma {:induction false} OutputIsWritten(text: string, limit: nat, e: Expr, post: nat)
    requires Polish(text, limit).Done? && Spells(text, e, post) && NoNul(text)
    ensures Same(Polish(text, limit).out, Written(e))
  {
    hide Tokens, Pol, Spells, NoNul, Vals, Written;
    var r := Polish(text, limit);
    PolKeeps(text, 0, WaitOperand, 0, [], [], limit);
    EndsAtEnd(text, 0, WaitOperand, [], [], limit);
    TokensWhole(text, e, post);
    NoneLeft(text);
    NoVals();
    NothingPopped();
    assert r.i == |text| && r.st == WaitOperator;
    assert Line(text, r.i, r.st, r.out) == Vals(r.out) + [] == Vals(r.out);
    assert Line(text, 0, WaitOperand, []) == [] + Vals(Written(e)) == Vals(Written(e));
    assert Mass(text, r.i, r.st, [], r.out) == multiset(r.out);
    assert Mass(text, 0, WaitOperand, [], []) == multiset(Written(e));
  }
}

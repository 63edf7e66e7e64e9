/** The text form of boolean queries: the printer and the specification of the parser. */
module BoolText {
  import opened BoolQuery

  // ---- Numbers ------------------------------------------------------------

  function Digit(d: nat): char
    requires d < 10
  {
    '0' + d as char
  }

  function Digits(n: nat): (s: string)
    ensures s != ""
  {
    if n < 10 then [Digit(n)] else Digits(n / 10) + [Digit(n % 10)]
  }

  /** sprintf("%d"). */
  function Decimal(v: int): string { if v < 0 then "-" + Digits(-v) else Digits(v) }

  predicate IsDigit(c: char) { '0' <= c <= '9' }

  predicate AllDigits(s: string) { forall i :: 0 <= i < |s| ==> IsDigit(s[i]) }

  function DigitsValue(s: string): int {
    if s == "" then 0 else 10 * DigitsValue(s[..|s| - 1]) + (s[|s| - 1] as int - '0' as int)
  }

  /** atoi, on an optional sign and digits. */
  function Atoi(s: string): int {
    if s != "" && s[0] == '-' then -DigitsValue(s[1..]) else DigitsValue(s)
  }

  lemma {:induction false} DigitsBack(n: nat)
    ensures AllDigits(Digits(n)) && DigitsValue(Digits(n)) == n
  {
    if n >= 10 {
      DigitsBack(n / 10);
      assert Digits(n)[..|Digits(n)| - 1] == Digits(n / 10);
    } else {
      assert [Digit(n)][..0] == "";
    }
  }

  lemma {:induction false} DecimalBack(v: int)
    ensures Decimal(v) != "" && Atoi(Decimal(v)) == v
    ensures var s := Decimal(v); (IsDigit(s[0]) || s[0] == '-') && AllDigits(s[1..])
  {
    if v < 0 {
      DigitsBack(-v);
      assert Decimal(v)[1..] == Digits(-v);
    } else {
      DigitsBack(v);
      var s := Digits(v);
      assert IsDigit(s[0]);
    }
  }

  // ---- Printing -----------------------------------------------------------

  /** The text of a query; a disjunction that is not outermost is put in parentheses. */
  function Infix(q: Query, first: bool): string
    decreases q, if first then 0 else 1
  {
    match q
    case Val(v) => Decimal(v)
    case Not(p) => if p.Val? then "!" + Infix(p, false) else "!( " + Infix(p, true) + " )"
    case And(l, r) => Infix(l, false) + " & " + Infix(r, false)
    case Or(l, r) => if first then Infix(l, false) + " | " + Infix(r, false) else "( " + (Infix(l, false) + " | " + Infix(r, false)) + " )"
  }

  lemma {:induction false} InfixNot(p: Query)
    ensures Infix(Not(p), true) == Infix(Not(p), false)
    ensures p.Val? ==> Infix(Not(p), false) == "!" + Infix(p, false)
    ensures !p.Val? ==> Infix(Not(p), false) == (("!" + "( ") + Infix(p, true)) + " )"
  {
    assert ("!" + "( ") == "!( ";
  }

  lemma {:induction false} InfixBinary(q: Query, first: bool)
    requires q.And? || q.Or?
    ensures var line := Infix(q.l, false) + ((if q.And? then " & " else " | ") + Infix(q.r, false));
      Infix(q, first) == if q.Or? && !first then ("( " + line) + " )" else line
  {
    var a, b, sep := Infix(q.l, false), Infix(q.r, false), if q.And? then " & " else " | ";
    assert a + sep + b == a + (sep + b);
  }

  /** infix: prints the query ending at cur and steps over it. */
  method InfixOut(items: seq<Item>, cur: int, first: bool, ghost q: Query) returns (text: string, cur': int)
    requires NodesAt(items, cur, q)
    ensures text == Infix(q, first) && cur' == cur - |Nodes(q)|
    decreases q, 1
  {
    hide NodesAt, Nodes, Infix, Stored, Decimal, Wrap16;
    Position(items, cur, q);
    if items[cur].node.isVal {
      ghost var v := ValNode(items, cur, q);
      InfixVal(v, first);
      text, cur' := Decimal(items[cur].node.val), cur - 1;
    } else if items[cur].node.val == NOT {
      NotNode(items, cur, q);
      InfixNot(q.q);
      text, cur' := "!", cur - 1;
      Position(items, cur', q.q);
      var isopr := !items[cur'].node.isVal;
      OperatorAt(items, cur', q.q);
      if isopr {
        text := text + "( ";
      }
      var t;
      t, cur' := InfixOut(items, cur', isopr, q.q);
      text := text + t;
      if isopr {
        text := text + " )";
      }
    } else {
      BinaryNode(items, cur, q);
      InfixBinary(q, first);
      text, cur' := InfixOperands(items, cur, q);
      if items[cur].node.val == OR && !first {
        text := ("( " + text) + " )";
      }
    }
  }

  /** Right operand into a buffer of its own, then the left operand, the operator and that buffer. */
  method InfixOperands(items: seq<Item>, cur: int, ghost q: Query) returns (text: string, cur': int)
    requires NodesAt(items, cur, q) && 0 <= cur < |items| && (q.And? || q.Or?)
    ensures text == Infix(q.l, false) + ((if q.And? then " & " else " | ") + Infix(q.r, false))
    ensures cur' == cur - |Nodes(q)|
    decreases q, 0
  {
    hide Infix, Stored, Wrap16;
    Kind(items, cur, q);
    BinaryNode(items, cur, q);
    var right, left;
    right, cur' := InfixOut(items, cur - 1, false, q.r);
    left, cur' := InfixOut(items, cur', false, q.l);
    text := left + ((if items[cur].node.val == AND then " & " else " | ") + right);
  }

  lemma {:induction false} InfixVal(v: int, first: bool)
    ensures Infix(Val(v), first) == Decimal(v)
  {
  }

  lemma {:induction false} OperatorAt(items: seq<Item>, cur: int, q: Query)
    requires NodesAt(items, cur, q) && 0 <= cur < |items|
    ensures items[cur].node.isVal <==> q.Val?
  {
    Kind(items, cur, q);
  }

  // ---- How long the numbers in a text are -----------------------------------

  /** The digits in a row from position i. */
  function DigitRun(text: string, i: nat): nat
    decreases |text| - i
  {
    if i < |text| && IsDigit(text[i]) then 1 + DigitRun(text, i + 1) else 0
  }

  /** Every number, its sign included, leaves room for the final NUL in a buffer of 16. */
  ghost predicate ShortNumbers(text: string) {
    forall i: nat :: DigitRun(text, i) <= 15 && (i < |text| && text[i] == '-' ==> DigitRun(text, i + 1) <= 14)
  }

  /** No more than ten digits in a row, as in a 32-bit number. */
  ghost predicate TenDigits(text: string) {
    forall i: nat :: DigitRun(text, i) <= 10
  }

  lemma {:induction false} RunInConcat(s: string, t: string, i: nat)
    requires s == "" || t == "" || !IsDigit(s[|s| - 1]) || !IsDigit(t[0])
    ensures DigitRun(s + t, i) == if i < |s| then DigitRun(s, i) else DigitRun(t, i - |s|)
    decreases |s + t| - i
  {
    var u := s + t;
    if i < |u| && IsDigit(u[i]) {
      RunInConcat(s, t, i + 1);
      assert i + 1 == |s| ==> DigitRun(t, 0) == 0 && DigitRun(s, i + 1) == 0;
    }
  }

  lemma {:induction false} TenConcat(s: string, t: string)
    requires TenDigits(s) && TenDigits(t) && (s == "" || t == "" || !IsDigit(s[|s| - 1]) || !IsDigit(t[0]))
    ensures TenDigits(s + t)
  {
    forall i: nat ensures DigitRun(s + t, i) <= 10 {
      RunInConcat(s, t, i);
    }
  }

  lemma {:induction false} TenIfShort(s: string)
    requires |s| <= 10 || (forall i :: 0 <= i < |s| ==> !IsDigit(s[i]))
    ensures TenDigits(s)
  {
    forall i: nat ensures DigitRun(s, i) <= 10 {
      if |s| <= 10 {
        RunLength(s, i);
      }
    }
  }

  lemma {:induction false} RunLength(s: string, i: nat)
    ensures DigitRun(s, i) <= if i < |s| then |s| - i else 0
    decreases |s| - i
  {
    if i < |s| && IsDigit(s[i]) {
      RunLength(s, i + 1);
    }
  }

  function Ten(k: nat): nat { if k == 0 then 1 else 10 * Ten(k - 1) }

  lemma {:induction false} DigitsLength(n: nat, k: nat)
    requires n < Ten(k) && k >= 1
    ensures |Digits(n)| <= k
  {
    if n >= 10 {
      DigitsLength(n / 10, k - 1);
    }
  }

  predicate Fits32(v: int) { -0x8000_0000 <= v < 0x8000_0000 }

  /** Every value of a query fits its item's 32-bit field. */
  predicate Values32(q: Query) {
    match q
    case Val(v) => Fits32(v)
    case Not(p) => Values32(p)
    case And(l, r) => Values32(l) && Values32(r)
    case Or(l, r) => Values32(l) && Values32(r)
  }

  lemma {:induction false} DecimalTen(v: int)
    requires Fits32(v)
    ensures TenDigits(Decimal(v))
  {
    assert Ten(10) == 10_000_000_000 by { TenTen(); }
    DigitsLength(if v < 0 then -v else v, 10);
    TenIfShort(Digits(if v < 0 then -v else v));
    TenIfShort("-");
    if v < 0 {
      TenConcat("-", Digits(-v));
    }
  }

  lemma {:induction false} TenTen()
    ensures Ten(10) == 10_000_000_000
  {
    assert Ten(5) == 100_000;
  }

  /** A printed query has no more than ten digits in a row. */
  lemma {:induction false} InfixTen(q: Query, first: bool)
    requires Values32(q)
    ensures TenDigits(Infix(q, first))
    decreases q
  {
    hide TenDigits, Decimal, Infix;
    TenIfShort("!");
    TenIfShort("( ");
    TenIfShort(" )");
    match q
    case Val(v) =>
      InfixVal(v, first);
      DecimalTen(v);
    case Not(p) =>
      InfixNot(p);
      InfixNotAny(p, first);
      InfixTen(p, false);
      InfixTen(p, true);
      TenConcat("!", Infix(p, false));
      TenConcat("!", "( ");
      TenConcat("!" + "( ", Infix(p, true));
      TenConcat(("!" + "( ") + Infix(p, true), " )");
    case And(l, r) =>
      InfixBinary(q, first);
      InfixTen(l, false);
      InfixTen(r, false);
      TenLine(Infix(l, false), " & ", Infix(r, false));
    case Or(l, r) =>
      InfixBinary(q, first);
      InfixTen(l, false);
      InfixTen(r, false);
      TenLine(Infix(l, false), " | ", Infix(r, false));
      var line := Infix(l, false) + (" | " + Infix(r, false));
      TenConcat("( ", line);
      TenConcat("( " + line, " )");
  }

  lemma {:induction false} InfixNotAny(p: Query, first: bool)
    ensures Infix(Not(p), first) == Infix(Not(p), false)
  {
  }

  lemma {:induction false} TenLine(s: string, sep: string, t: string)
    requires TenDigits(s) && TenDigits(t) && (sep == " & " || sep == " | ")
    ensures TenDigits(s + (sep + t))
  {
    TenIfShort(sep);
    TenConcat(sep, t);
    TenConcat(s, sep + t);
  }

  // ---- gettoken -----------------------------------------------------------

  datatype Token = TVal(v: int) | TOpr(op: int) | TOpen | TClose | TEnd | TErr

  datatype LexState = WaitOperand | WaitEndOperand | WaitOperator

  /** A token and the state of the reader behind it. */
  datatype Lexed = Lexed(tok: Token, i: nat, st: LexState, count: int)

  function At(text: string, i: nat): char { if i < |text| then text[i] else '\0' }

  /** gettoken's automaton from position i; nnn holds the digits read so far. */
  function GetToken(text: string, i: nat, st: LexState, count: int, nnn: string): (r: Lexed)
    requires i <= |text|
    ensures i <= r.i <= |text| && r.st != WaitEndOperand
    ensures st != WaitEndOperand && r.tok != TEnd && r.tok != TErr ==> i < r.i
    decreases |text| - i
  {
    var c := At(text, i);
    match st
    case WaitOperand =>
      if IsDigit(c) || c == '-' then GetToken(text, i + 1, WaitEndOperand, count, [c])
      else if c == '!' then Lexed(TOpr(NOT), i + 1, WaitOperand, count)
      else if c == '(' then Lexed(TOpen, i + 1, WaitOperand, count + 1)
      else if c != ' ' then Lexed(TErr, i, WaitOperand, count)
      else GetToken(text, i + 1, WaitOperand, count, nnn)
    case WaitEndOperand =>
      if IsDigit(c) then GetToken(text, i + 1, WaitEndOperand, count, nnn + [c])
      else Lexed(if count != 0 && c == '\0' then TErr else TVal(Atoi(nnn)), i, WaitOperator, count)
    case WaitOperator =>
      if c == '&' || c == '|' then Lexed(TOpr(if c == '&' then AND else OR), i + 1, WaitOperand, count)
      else if c == ')' then Lexed(if count - 1 < 0 then TErr else TClose, i + 1, WaitOperator, count - 1)
      else if c == '\0' then Lexed(if count != 0 then TErr else TEnd, i, WaitOperator, count)
      else if c != ' ' then Lexed(TErr, i, WaitOperator, count)
      else GetToken(text, i + 1, WaitOperator, count, nnn)
  }

  // ---- makepol ------------------------------------------------------------

  datatype PolResult = Done(i: nat, st: LexState, count: int, out: seq<Node>) | SyntaxError | TooComplex

  predicate IsTight(op: int) { op == AND || op == NOT }

  /** Moves the operators that bind tighter than | from the stack to the output. */
  function PopTight(stack: seq<int>, out: seq<Node>): (r: (seq<int>, seq<Node>))
    ensures |r.0| <= |stack|
  {
    if stack != [] && IsTight(stack[|stack| - 1]) then PopTight(stack[..|stack| - 1], out + [Node(false, stack[|stack| - 1])])
    else (stack, out)
  }

  /** The whole stack, from the top. */
  function PopAll(stack: seq<int>): seq<Node> {
    if stack == [] then [] else [Node(false, stack[|stack| - 1])] + PopAll(stack[..|stack| - 1])
  }

  /** makepol from a state of the reader, with an operator stack of at most limit entries. */
  function Pol(text: string, i: nat, st: LexState, count: int, stack: seq<int>, out: seq<Node>, limit: nat): (r: PolResult)
    requires i <= |text| && st != WaitEndOperand
    ensures r.Done? ==> i <= r.i <= |text| && r.st != WaitEndOperand
    decreases |text| - i
  {
    var t := GetToken(text, i, st, count, "");
    match t.tok
    case TEnd => Done(t.i, t.st, t.count, out + PopAll(stack))
    case TErr => SyntaxError
    case TVal(v) =>
      var p := PopTight(stack, out + [Node(true, v)]);
      Pol(text, t.i, t.st, t.count, p.0, p.1, limit)
    case TOpr(op) =>
      if stack != [] && op == OR then Pol(text, t.i, t.st, t.count, stack, out + [Node(false, OR)], limit)
      else if |stack| == limit then TooComplex
      else Pol(text, t.i, t.st, t.count, stack + [op], out, limit)
    case TOpen =>
      var n := Pol(text, t.i, t.st, t.count, [], out, limit);
      if !n.Done? then n
      else if stack != [] && IsTight(stack[|stack| - 1]) then
        Pol(text, n.i, n.st, n.count, stack[..|stack| - 1], n.out + [Node(false, stack[|stack| - 1])], limit)
      else Pol(text, n.i, n.st, n.count, stack, n.out, limit)
    case TClose => Done(t.i, t.st, t.count, out + PopAll(stack))
  }

  // ---- What is read back --------------------------------------------------

  /** Operands with the conjunctions between them still on the stack, put together. */
  function Conj(c: seq<Query>): Query
    requires c != []
  {
    if |c| == 1 then c[0] else And(c[0], Conj(c[1..]))
  }

  /** The pending operands after the text of q has been read behind the pending operands c. */
  function Feed(q: Query, c: seq<Query>): (r: seq<Query>)
    ensures r != []
    decreases q, if q.Or? then 1 else 0
  {
    match q
    case Val(v) => [Conj(c + [q])]
    case Not(p) => if p.Val? then [Conj(c + [q])] else c + [Not(Read(p))]
    case And(l, r) => Feed(r, Feed(l, c))
    case Or(l, r) =>
      var u := Read(q);
      if c == [] then [u] else c[..|c| - 1] + [And(c[|c| - 1], u)]
  }

  /** A | met while conjunctions are pending joins the last two operands at once. */
  function JoinedByOr(c: seq<Query>): seq<Query>
    requires |c| >= 2
  {
    c[..|c| - 2] + [Or(c[|c| - 2], c[|c| - 1])]
  }

  /** The query read from the text of q on its own level. */
  function Read(q: Query): Query
    decreases q, if q.Or? then 0 else 1
  {
    if !q.Or? then Conj(Feed(q, []))
    else
      var c := Feed(q.l, []);
      if |c| == 1 then Or(c[0], Conj(Feed(q.r, []))) else Conj(Feed(q.r, JoinedByOr(c)))
  }

  /** How many conjunctions are pending after q, when k were pending before. */
  function Pend(q: Query, k: nat): nat {
    match q
    case Val(v) => 0
    case Not(p) => if p.Val? then 0 else k
    case And(l, r) => Pend(r, Pend(l, k) + 1)
    case Or(l, r) => if k == 0 then 0 else k - 1
  }

  lemma {:induction false} FeedPend(q: Query, c: seq<Query>)
    ensures |Feed(q, c)| == Pend(q, |c|) + 1
    decreases q
  {
    if q.And? {
      FeedPend(q.l, c);
      FeedPend(q.r, Feed(q.l, c));
    }
  }

  /** No | has a conjunction pending on its left. */
  predicate Clean(q: Query) {
    match q
    case Val(v) => true
    case Not(p) => Clean(p)
    case And(l, r) => Clean(l) && Clean(r)
    case Or(l, r) => Clean(l) && Clean(r) && Pend(l, 0) == 0
  }

  ghost predicate EvalAll(c: seq<Query>, has: int -> bool) {
    forall i :: 0 <= i < |c| ==> Eval(c[i], has)
  }

  lemma {:induction false} ConjMeans(c: seq<Query>, has: int -> bool)
    requires c != []
    ensures Eval(Conj(c), has) == EvalAll(c, has)
  {
    if |c| > 1 {
      ConjMeans(c[1..], has);
      if EvalAll(c, has) {
        assert c[0] == c[0];
      }
      if Eval(c[0], has) && EvalAll(c[1..], has) {
        forall i | 0 <= i < |c| ensures Eval(c[i], has) {
          if i > 0 {
            assert c[1..][i - 1] == c[i];
          }
        }
      }
    }
  }

  lemma {:induction false} EvalAllSnoc(c: seq<Query>, q: Query, has: int -> bool)
    ensures EvalAll(c + [q], has) == (EvalAll(c, has) && Eval(q, has))
  {
    if EvalAll(c + [q], has) {
      forall i | 0 <= i < |c| ensures Eval(c[i], has) {
        assert (c + [q])[i] == c[i];
      }
      assert (c + [q])[|c|] == q;
    }
  }

  /** Reading a clean query keeps its meaning, whatever is pending. */
  lemma {:induction false} FeedMeans(q: Query, c: seq<Query>, has: int -> bool)
    requires Clean(q)
    ensures EvalAll(Feed(q, c), has) == (EvalAll(c, has) && Eval(q, has))
    decreases q, if q.Or? then 1 else 0
  {
    hide EvalAll;
    match q
    case Val(v) =>
      EvalAllSnoc(c, q, has);
      ConjMeans(c + [q], has);
      EvalAllOne(Conj(c + [q]), has);
    case Not(p) =>
      EvalAllSnoc(c, q, has);
      ConjMeans(c + [q], has);
      EvalAllOne(Conj(c + [q]), has);
      if !p.Val? {
        ReadMeans(p, has);
        EvalAllSnoc(c, Not(Read(p)), has);
      }
    case And(l, r) =>
      FeedMeans(l, c, has);
      FeedMeans(r, Feed(l, c), has);
    case Or(l, r) =>
      var u := Read(q);
      ReadMeans(q, has);
      EvalAllOne(u, has);
      EvalAllNone(has);
      if c != [] {
        var d, x := c[..|c| - 1], c[|c| - 1];
        assert c == d + [x];
        EvalAllSnoc(d, x, has);
        EvalAllSnoc(d, And(x, u), has);
      }
  }

  lemma {:induction false} EvalAllOne(q: Query, has: int -> bool)
    ensures EvalAll([q], has) == Eval(q, has)
  {
    assert [q][0] == q;
  }

  lemma {:induction false} EvalAllNone(has: int -> bool)
    ensures EvalAll([], has)
  {
  }

  lemma {:induction false} ReadMeans(q: Query, has: int -> bool)
    requires Clean(q)
    ensures Eval(Read(q), has) == Eval(q, has)
    decreases q, if q.Or? then 0 else 1
  {
    hide EvalAll;
    EvalAllNone(has);
    if q.Or? {
      FeedPend(q.l, []);
      var c := Feed(q.l, []);
      FeedMeans(q.l, [], has);
      FeedMeans(q.r, [], has);
      assert c == [c[0]];
      EvalAllOne(c[0], has);
      ConjMeans(Feed(q.r, []), has);
    } else {
      FeedMeans(q, [], has);
      ConjMeans(Feed(q, []), has);
    }
  }

  /** A query that is not clean, and what is read instead: 1 & !( 2 | 3 ) | 4 becomes (1 | !(2 | 3)) & 4. */
  lemma {:induction false} UncleanExample()
    ensures var q := Or(And(Val(1), Not(Or(Val(2), Val(3)))), Val(4));
      !Clean(q) && Eval(q, x => x == 1) && !Eval(Read(q), x => x == 1)
  {
    var p := Or(Val(2), Val(3));
    var q := Or(And(Val(1), Not(p)), Val(4));
    assert Feed(Val(1), []) == [Val(1)] by {
      assert [] + [Val(1)] == [Val(1)];
    }
    var c := [Val(1)] + [Not(Read(p))];
    assert Feed(q.l, []) == c;
    assert JoinedByOr(c) == [Or(Val(1), Not(Read(p)))];
    var d := [Or(Val(1), Not(Read(p)))] + [Val(4)];
    assert d[1..] == [Val(4)] && Conj([Val(4)]) == Val(4);
    assert Conj(d) == And(d[0], Val(4));
    assert Feed(Val(4), JoinedByOr(c)) == [Conj(d)];
    assert Read(q) == Conj(d);
  }
}

/** Which texts bqarr_in accepts: those a grammar derives. */
module BoolGrammar {
  import opened Texts
  import opened BoolQuery
  import opened BoolText
  import opened BoolRead
  import opened BoolPostfix

  // ---- The grammar --------------------------------------------------------

  /** E ::= number | !E | (E) | E & E | E "|" E, each token with the blanks before it. */
  datatype Expr =
    | Number(pre: nat, digits: string)
    | Neg(pre: nat, e: Expr)
    | Paren(pre: nat, e: Expr, post: nat)
    | Binary(l: Expr, mid: nat, op: char, r: Expr)

  function Blanks(n: nat): (s: string)
    ensures |s| == n && forall k :: 0 <= k < n ==> s[k] == ' '
  {
    seq(n, _ => ' ')
  }

  ghost predicate Numeral(s: string) {
    s != "" && (s[0] == '-' || '0' <= s[0] <= '9') && forall k :: 1 <= k < |s| ==> '0' <= s[k] <= '9'
  }

  ghost predicate Proper(e: Expr) {
    match e
    case Number(pre, s) => Numeral(s)
    case Neg(pre, f) => Proper(f)
    case Paren(pre, f, post) => Proper(f)
    case Binary(l, mid, op, r) => Proper(l) && Proper(r) && (op == '&' || op == '|')
  }

  function Spelled(e: Expr): string {
    match e
    case Number(pre, s) => Blanks(pre) + s
    case Neg(pre, f) => Blanks(pre) + ("!" + Spelled(f))
    case Paren(pre, f, post) => Blanks(pre) + ("(" + (Spelled(f) + (Blanks(post) + ")")))
    case Binary(l, mid, op, r) => Spelled(l) + (Blanks(mid) + ([op] + Spelled(r)))
  }

  ghost predicate Spells(text: string, e: Expr, post: nat) {
    Proper(e) && text == Spelled(e) + Blanks(post)
  }

  /** The grammar derives the text. */
  ghost predicate Derivable(text: string) {
    exists e, post :: Spells(text, e, post)
  }

  ghost predicate NoNul(text: string) {
    forall i :: 0 <= i < |text| ==> text[i] != '\0'
  }

  // ---- What makepol accepts, a character at a time -------------------------

  /** Whether the rest of a text is accepted from a state of the reader. */
  ghost predicate Scan(text: string, i: nat, st: LexState, count: nat)
    requires i <= |text| && st != WaitEndOperand
    decreases |text| - i
  {
    if i == |text| then st == WaitOperator && count == 0
    else
      var c := text[i];
      if c == ' ' then Scan(text, i + 1, st, count)
      else if st == WaitOperand then
        if IsDigit(c) || c == '-' then
          RunEnds(text, i + 1);
          Scan(text, i + 1 + DigitRun(text, i + 1), WaitOperator, count)
        else if c == '!' then Scan(text, i + 1, WaitOperand, count)
        else c == '(' && Scan(text, i + 1, WaitOperand, count + 1)
      else if c == ')' then count > 0 && Scan(text, i + 1, WaitOperator, count - 1)
      else (c == '&' || c == '|') && Scan(text, i + 1, WaitOperand, count)
  }

  lemma {:induction false} RunEnds(text: string, i: nat)
    requires i <= |text|
    ensures i + DigitRun(text, i) <= |text| && !IsDigit(At(text, i + DigitRun(text, i)))
    ensures forall k :: i <= k < i + DigitRun(text, i) ==> IsDigit(text[k])
    decreases |text| - i
  {
    if i < |text| && IsDigit(text[i]) {
      RunEnds(text, i + 1);
    } else {
      NulIsNoDigit();
    }
  }

  lemma {:induction false} NumberToken(text: string, i: nat, count: int, nnn: string)
    requires i <= |text|
    ensures var r, j := GetToken(text, i, WaitEndOperand, count, nnn), i + DigitRun(text, i);
      && j <= |text| && r.i == j && r.st == WaitOperator && r.count == count
      && (if count != 0 && At(text, j) == '\0' then r.tok == TErr else r.tok.TVal?)
    decreases |text| - i
  {
    NulIsNoDigit();
    if i < |text| && IsDigit(text[i]) {
      NumberToken(text, i + 1, count, nnn + [text[i]]);
    }
  }

  /** One token of the scan. */
  ghost predicate Accepts(text: string, t: Lexed)
    requires t.i <= |text| && t.st != WaitEndOperand
  {
    match t.tok
    case TEnd => true
    case TErr => false
    case _ => t.count >= 0 && Scan(text, t.i, t.st, t.count)
  }

  lemma {:induction false} TokenScan(text: string, i: nat, st: LexState, count: nat)
    requires NoNul(text) && i <= |text| && st != WaitEndOperand
    ensures var t := GetToken(text, i, st, count, "");
      && Scan(text, i, st, count) == Accepts(text, t)
      && match t.tok
         case TEnd => count == 0
         case TErr => true
         case TVal(v) => t.count == count
         case TOpr(op) => t.count == count
         case TOpen => t.count == count + 1
         case TClose => t.count == count - 1 >= 0 && t.st == WaitOperator
    decreases |text| - i
  {
    NulIsNoDigit();
    if i < |text| {
      var c := text[i];
      if c == ' ' {
        TokenScan(text, i + 1, st, count);
      } else if st == WaitOperand && (IsDigit(c) || c == '-') {
        NumberToken(text, i + 1, count, [c]);
      }
    }
  }

  /** What makepol does from a state, against the scan. */
  ghost predicate Agrees(text: string, i: nat, st: LexState, count: nat, r: PolResult)
    requires i <= |text| && st != WaitEndOperand
  {
    match r
    case Done(j, s, c, out) =>
      if count == 0 then Scan(text, i, st, 0)
      else c == count - 1 && s == WaitOperator && j <= |text| && Scan(text, i, st, count) == Scan(text, j, WaitOperator, c)
    case SyntaxError => !Scan(text, i, st, count)
    case TooComplex => true
  }

  lemma {:induction false} PolScan(text: string, i: nat, st: LexState, count: nat, stack: seq<int>, out: seq<Node>, limit: nat)
    requires NoNul(text) && i <= |text| && st != WaitEndOperand && |stack| <= limit
    ensures var r := Pol(text, i, st, count, stack, out, limit);
      Agrees(text, i, st, count, r) && (r == TooComplex ==> limit < |stack| + |text| - i)
    decreases |text| - i
  {
    hide GetToken, Scan, PopTight, PopAll;
    var t := GetToken(text, i, st, count, "");
    TokenScan(text, i, st, count);
    match t.tok
    case TEnd =>
    case TErr =>
    case TClose =>
    case TVal(v) =>
      var p := PopTight(stack, out + [Node(true, v)]);
      PolScan(text, t.i, t.st, t.count, p.0, p.1, limit);
    case TOpr(op) =>
      if stack != [] && op == OR {
        PolScan(text, t.i, t.st, t.count, stack, out + [Node(false, OR)], limit);
      } else if |stack| != limit {
        PolScan(text, t.i, t.st, t.count, stack + [op], out, limit);
      }
    case TOpen =>
      var n := Pol(text, t.i, t.st, t.count, [], out, limit);
      PolScan(text, t.i, t.st, t.count, [], out, limit);
      if n.Done? {
        if stack != [] && IsTight(stack[|stack| - 1]) {
          PolScan(text, n.i, n.st, n.count, stack[..|stack| - 1], n.out + [Node(false, stack[|stack| - 1])], limit);
        } else {
          PolScan(text, n.i, n.st, n.count, stack, n.out, limit);
        }
      }
  }

  // ---- Every derivable text is accepted ------------------------------------

  lemma {:induction false} ScanBlanks(text: string, i: nat, n: nat, st: LexState, count: nat)
    requires Has(text, i, Blanks(n)) && st != WaitEndOperand
    ensures Scan(text, i, st, count) == Scan(text, i + n, st, count)
    decreases n
  {
    if n > 0 {
      assert text[i] == text[i..i + n][0] == ' ';
      assert text[i + 1..i + 1 + (n - 1)] == text[i..i + n][1..] == Blanks(n - 1);
      ScanBlanks(text, i + 1, n - 1, st, count);
    }
  }

  lemma {:induction false} RunIs(text: string, i: nat, n: nat)
    requires i + n <= |text| && (forall k :: i <= k < i + n ==> IsDigit(text[k])) && !IsDigit(At(text, i + n))
    ensures DigitRun(text, i) == n
    decreases n
  {
    if n > 0 {
      RunIs(text, i + 1, n - 1);
    }
  }

  lemma {:induction false} ScanNumeral(text: string, i: nat, s: string, count: nat)
    requires Has(text, i, s) && Numeral(s) && !IsDigit(At(text, i + |s|))
    ensures Scan(text, i, WaitOperand, count) == Scan(text, i + |s|, WaitOperator, count)
  {
    assert forall k :: 0 <= k < |s| ==> text[i + k] == text[i..i + |s|][k] == s[k];
    assert forall k :: i + 1 <= k < i + |s| ==> text[k] == s[k - i];
    RunIs(text, i + 1, |s| - 1);
  }

  lemma {:induction false} HasChar(text: string, i: nat, c: char, s: string)
    requires Has(text, i, [c] + s)
    ensures i < |text| && text[i] == c && Has(text, i + 1, s)
  {
    HasSplit(text, i, [c], s);
    assert text[i..i + 1][0] == c;
  }

  /** Behind blanks and a character that is no digit there is no digit. */
  lemma {:induction false} NotDigit(text: string, i: nat, n: nat, c: char, s: string)
    requires Has(text, i, Blanks(n) + ([c] + s)) && !IsDigit(c)
    ensures !IsDigit(At(text, i))
  {
    var u := Blanks(n) + ([c] + s);
    assert text[i] == text[i..i + |u|][0] == u[0];
  }

  /** A character that is neither blank nor part of a number. */
  ghost predicate Mark(c: char) { c == '!' || c == '(' || c == ')' || c == '&' || c == '|' }

  lemma {:induction false} ScanMark(text: string, i: nat, st: LexState, count: nat)
    requires i < |text| && Mark(text[i]) && st != WaitEndOperand
    ensures Scan(text, i, st, count) ==
      var c := text[i];
      if st == WaitOperand then
        if c == '!' then Scan(text, i + 1, WaitOperand, count) else c == '(' && Scan(text, i + 1, WaitOperand, count + 1)
      else if c == ')' then count > 0 && Scan(text, i + 1, WaitOperator, count - 1)
      else (c == '&' || c == '|') && Scan(text, i + 1, WaitOperand, count)
  {
  }

  lemma {:induction false} ScanExpr(text: string, i: nat, e: Expr, count: nat)
    requires Has(text, i, Spelled(e)) && Proper(e) && !IsDigit(At(text, i + |Spelled(e)|))
    ensures Scan(text, i, WaitOperand, count) == Scan(text, i + |Spelled(e)|, WaitOperator, count)
    decreases e, 1
  {
    hide IsDigit, Numeral, Has, Scan;
    match e
    case Number(pre, s) =>
      HasSplit(text, i, Blanks(pre), s);
      ScanBlanks(text, i, pre, WaitOperand, count);
      ScanNumeral(text, i + pre, s, count);
    case Neg(pre, f) =>
      HasSplit(text, i, Blanks(pre), "!" + Spelled(f));
      ScanBlanks(text, i, pre, WaitOperand, count);
      HasChar(text, i + pre, '!', Spelled(f));
      ScanMark(text, i + pre, WaitOperand, count);
      ScanExpr(text, i + pre + 1, f, count);
    case Paren(pre, f, post) =>
      HasSplit(text, i, Blanks(pre), "(" + (Spelled(f) + (Blanks(post) + ")")));
      ScanBlanks(text, i, pre, WaitOperand, count);
      ScanParen(text, i + pre, f, post, count);
    case Binary(l, mid, op, r) =>
      ScanBinary(text, i, l, mid, op, r, count);
  }

  lemma {:induction false} ScanParen(text: string, i: nat, f: Expr, post: nat, count: nat)
    requires Has(text, i, "(" + (Spelled(f) + (Blanks(post) + ")"))) && Proper(f)
    ensures var n := 1 + |Spelled(f)| + post + 1;
      i + n <= |text| && Scan(text, i, WaitOperand, count) == Scan(text, i + n, WaitOperator, count)
    decreases f, 2
  {
    hide IsDigit, Has, Scan, Spelled;
    HasChar(text, i, '(', Spelled(f) + (Blanks(post) + ")"));
    ScanMark(text, i, WaitOperand, count);
    HasSplit(text, i + 1, Spelled(f), Blanks(post) + ")");
    var k := i + 1 + |Spelled(f)|;
    PlainMark();
    assert ")" == [')'] + "";
    NotDigit(text, k, post, ')', "");
    ScanExpr(text, i + 1, f, count + 1);
    HasSplit(text, k, Blanks(post), ")");
    ScanBlanks(text, k, post, WaitOperator, count + 1);
    HasChar(text, k + post, ')', "");
    ScanMark(text, k + post, WaitOperator, count + 1);
  }

  lemma {:induction false} ScanBinary(text: string, i: nat, l: Expr, mid: nat, op: char, r: Expr, count: nat)
    requires Has(text, i, Spelled(l) + (Blanks(mid) + ([op] + Spelled(r))))
    requires Proper(l) && Proper(r) && (op == '&' || op == '|')
    requires !IsDigit(At(text, i + |Spelled(l)| + mid + 1 + |Spelled(r)|))
    ensures var n := |Spelled(l)| + mid + 1 + |Spelled(r)|;
      i + n <= |text| && Scan(text, i, WaitOperand, count) == Scan(text, i + n, WaitOperator, count)
    decreases Binary(l, mid, op, r), 0
  {
    hide IsDigit, Has, Scan, Spelled;
    HasSplit(text, i, Spelled(l), Blanks(mid) + ([op] + Spelled(r)));
    var k := i + |Spelled(l)|;
    PlainMark();
    NotDigit(text, k, mid, op, Spelled(r));
    ScanExpr(text, i, l, count);
    HasSplit(text, k, Blanks(mid), [op] + Spelled(r));
    ScanBlanks(text, k, mid, WaitOperator, count);
    HasChar(text, k + mid, op, Spelled(r));
    ScanMark(text, k + mid, WaitOperator, count);
    ScanExpr(text, k + mid + 1, r, count);
    HasWithin(text, k + mid + 1, Spelled(r));
  }

  lemma {:induction false} HasWithin(text: string, i: nat, s: string)
    requires Has(text, i, s)
    ensures i + |s| <= |text|
  {
  }

  lemma {:induction false} PlainMark()
    ensures forall c :: Mark(c) ==> !IsDigit(c)
  {
  }

  lemma {:induction false} DerivableAccepted(text: string, e: Expr, post: nat)
    requires Spells(text, e, post)
    ensures Scan(text, 0, WaitOperand, 0)
  {
    var n := |Spelled(e)|;
    assert text[..n] == Spelled(e) && text[n..n + post] == Blanks(post);
    assert !IsDigit(At(text, n)) by {
      assert post > 0 ==> text[n] == text[n..n + post][0];
    }
    ScanExpr(text, 0, e, 0);
    ScanBlanks(text, n, post, WaitOperator, 0);
  }

  // ---- Every accepted text is derivable ------------------------------------

  /** Blanks up to the next token. */
  function BlankRun(text: string, i: nat): (n: nat)
    requires i <= |text|
    ensures i + n <= |text| && Has(text, i, Blanks(n)) && (i + n < |text| ==> text[i + n] != ' ')
    decreases |text| - i
  {
    if i < |text| && text[i] == ' ' then
      var n := BlankRun(text, i + 1);
      assert text[i..i + 1 + n] == Blanks(n + 1) by {
        assert text[i..i + 1 + n] == [text[i]] + text[i + 1..i + 1 + n];
      }
      n + 1
    else 0
  }

  lemma {:induction false} HasJoin(text: string, i: nat, s: string, t: string)
    requires Has(text, i, s) && Has(text, i + |s|, t)
    ensures Has(text, i, s + t)
  {
    assert text[i..i + |s + t|] == text[i..i + |s|] + text[i + |s|..i + |s| + |t|];
  }

  lemma {:induction false} HasOne(text: string, i: nat)
    requires i < |text|
    ensures Has(text, i, [text[i]])
  {
  }

  /** An expression stands at i and the scan goes on behind it. */
  ghost predicate Stands(text: string, i: nat, e: Expr, count: nat) {
    Proper(e) && Has(text, i, Spelled(e)) && Scan(text, i + |Spelled(e)|, WaitOperator, count)
  }

  /** Behind the expression and some blanks stands the end of its level. */
  ghost predicate Ends(text: string, i: nat, e: Expr, post: nat, count: nat) {
    && Proper(e) && Has(text, i, Spelled(e)) && Has(text, i + |Spelled(e)|, Blanks(post))
    && var k := i + |Spelled(e)| + post;
       if count == 0 then k == |text|
       else k < |text| && text[k] == ')' && Scan(text, k + 1, WaitOperator, count - 1)
  }

  /** What a token makes of what the scan accepts behind it. */
  lemma {:induction false} ScanNext(text: string, i: nat, st: LexState, count: nat)
    requires i <= |text| && st != WaitEndOperand && Scan(text, i, st, count) && (i < |text| ==> text[i] != ' ')
    ensures st == WaitOperand ==> i < |text| && (Mark(text[i]) || Digital(text[i]))
    ensures st == WaitOperator && i < |text| ==> Mark(text[i])
    ensures st == WaitOperator ==> (if count == 0 then i == |text| || text[i] != ')' else i < |text|)
    ensures st == WaitOperand && Digital(text[i]) ==>
      i + 1 + DigitRun(text, i + 1) <= |text| && Scan(text, i + 1 + DigitRun(text, i + 1), WaitOperator, count)
  {
    if i < |text| {
      RunEnds(text, i + 1);
    }
  }

  ghost predicate Digital(c: char) { IsDigit(c) || c == '-' }

  lemma {:induction false} NegStands(text: string, i: nat, pre: nat, f: Expr, count: nat)
    requires i + pre < |text| && Has(text, i, Blanks(pre)) && text[i + pre] == '!' && Stands(text, i + pre + 1, f, count)
    ensures Stands(text, i, Neg(pre, f), count)
  {
    hide Has, Scan;
    HasOne(text, i + pre);
    HasJoin(text, i + pre, "!", Spelled(f));
    HasJoin(text, i, Blanks(pre), "!" + Spelled(f));
  }

  lemma {:induction false} ParenStands(text: string, i: nat, pre: nat, f: Expr, post: nat, count: nat)
    requires i + pre < |text| && Has(text, i, Blanks(pre)) && text[i + pre] == '(' && Ends(text, i + pre + 1, f, post, count + 1)
    ensures Stands(text, i, Paren(pre, f, post), count)
  {
    hide Has, Scan;
    var k := i + pre;
    var m := k + 1 + |Spelled(f)|;
    HasOne(text, k);
    HasOne(text, m + post);
    HasJoin(text, m, Blanks(post), ")");
    HasJoin(text, k + 1, Spelled(f), Blanks(post) + ")");
    HasJoin(text, k, "(", Spelled(f) + (Blanks(post) + ")"));
    HasJoin(text, i, Blanks(pre), "(" + (Spelled(f) + (Blanks(post) + ")")));
  }

  lemma {:induction false} NumberStands(text: string, i: nat, pre: nat, count: nat)
    requires Has(text, i, Blanks(pre)) && i + pre < |text| && Digital(text[i + pre])
    requires var j := i + pre + 1 + DigitRun(text, i + pre + 1); j <= |text| && Scan(text, j, WaitOperator, count)
    ensures Stands(text, i, Number(pre, text[i + pre..i + pre + 1 + DigitRun(text, i + pre + 1)]), count)
  {
    hide Has, Scan;
    var k := i + pre;
    var n := 1 + DigitRun(text, k + 1);
    RunEnds(text, k + 1);
    RunIsNumeral(text, k, n);
    HasJoin(text, i, Blanks(pre), text[k..k + n]);
  }

  /** An operand: a number, a negated operand, or an expression in parentheses. */
  lemma {:induction false} Operand(text: string, i: nat, count: nat) returns (e: Expr)
    requires i <= |text| && Scan(text, i, WaitOperand, count)
    ensures Stands(text, i, e, count)
    decreases |text| - i, 0
  {
    hide DigitRun, Has, Scan, Stands, Ends, Digital;
    var pre := BlankRun(text, i);
    ScanBlanks(text, i, pre, WaitOperand, count);
    var k := i + pre;
    ScanNext(text, k, WaitOperand, count);
    if Digital(text[k]) {
      NumberStands(text, i, pre, count);
      e := Number(pre, text[k..k + 1 + DigitRun(text, k + 1)]);
    } else {
      ScanMark(text, k, WaitOperand, count);
      if text[k] == '!' {
        var f := Operand(text, k + 1, count);
        NegStands(text, i, pre, f, count);
        e := Neg(pre, f);
      } else {
        var f, post := Level(text, k + 1, count + 1);
        ParenStands(text, i, pre, f, post, count);
        e := Paren(pre, f, post);
      }
    }
  }

  lemma {:induction false} RunIsNumeral(text: string, k: nat, n: nat)
    requires n >= 1 && k + n <= |text| && (IsDigit(text[k]) || text[k] == '-')
    requires forall m :: k + 1 <= m < k + n ==> IsDigit(text[m])
    ensures Numeral(text[k..k + n]) && Has(text, k, text[k..k + n])
  {
  }

  /** An expression up to the end of its level. */
  lemma {:induction false} Level(text: string, i: nat, count: nat) returns (e: Expr, post: nat)
    requires i <= |text| && Scan(text, i, WaitOperand, count)
    ensures Ends(text, i, e, post, count)
    decreases |text| - i, 1
  {
    e := Operand(text, i, count);
    e, post := Extend(text, i, e, count);
  }

  lemma {:induction false} BinaryStands(text: string, i: nat, l: Expr, mid: nat, r: Expr, count: nat)
    requires Proper(l) && Has(text, i, Spelled(l)) && Has(text, i + |Spelled(l)|, Blanks(mid))
    requires var k := i + |Spelled(l)| + mid; k < |text| && (text[k] == '&' || text[k] == '|') && Stands(text, k + 1, r, count)
    ensures Stands(text, i, Binary(l, mid, text[i + |Spelled(l)| + mid], r), count)
  {
    hide Has, Scan;
    var j := i + |Spelled(l)|;
    var k := j + mid;
    HasOne(text, k);
    HasJoin(text, k, [text[k]], Spelled(r));
    HasJoin(text, j, Blanks(mid), [text[k]] + Spelled(r));
    HasJoin(text, i, Spelled(l), Blanks(mid) + ([text[k]] + Spelled(r)));
  }

  lemma {:induction false} StandsWithin(text: string, i: nat, e: Expr, count: nat)
    requires Stands(text, i, e, count)
    ensures i + |Spelled(e)| <= |text| && Proper(e) && Has(text, i, Spelled(e)) && Scan(text, i + |Spelled(e)|, WaitOperator, count)
  {
  }

  lemma {:induction false} Extend(text: string, i: nat, l: Expr, count: nat) returns (e: Expr, post: nat)
    requires Stands(text, i, l, count)
    ensures Ends(text, i, e, post, count)
    decreases |text| - i - |Spelled(l)|, 2
  {
    hide Has, Scan, Stands, Spelled;
    StandsWithin(text, i, l, count);
    var j := i + |Spelled(l)|;
    var n := BlankRun(text, j);
    ScanBlanks(text, j, n, WaitOperator, count);
    var k := j + n;
    ScanNext(text, k, WaitOperator, count);
    if k == |text| {
      e, post := l, n;
    } else {
      ScanMark(text, k, WaitOperator, count);
      if text[k] == ')' {
        e, post := l, n;
      } else {
        var r := Operand(text, k + 1, count);
        BinaryStands(text, i, l, n, r, count);
        var b := Binary(l, n, text[k], r);
        BinaryLonger(l, n, text[k], r);
        StandsWithin(text, i, b, count);
        e, post := Extend(text, i, b, count);
      }
    }
  }

  lemma {:induction false} BinaryLonger(l: Expr, mid: nat, op: char, r: Expr)
    ensures |Spelled(Binary(l, mid, op, r))| > |Spelled(l)| + mid
  {
  }

  /** The scan accepts exactly the derivable texts. */
  lemma {:induction false} ScanExactly(text: string)
    ensures Scan(text, 0, WaitOperand, 0) <==> Derivable(text)
  {
    hide Scan;
    if Scan(text, 0, WaitOperand, 0) {
      var e, post := Level(text, 0, 0);
      HasJoin(text, 0, Spelled(e), Blanks(post));
      assert Spells(text, e, post);
    }
    if e, post :| Spells(text, e, post) {
      DerivableAccepted(text, e, post);
    }
  }

  /** makepol accepts only derivable texts and finds a syntax error only in others, whatever its stack holds; and when the
      stack can hold an operator for every character, it accepts exactly the derivable ones. */
  lemma {:induction false} AcceptedExactly(text: string, limit: nat)
    requires NoNul(text)
    ensures Polish(text, limit).Done? ==> Derivable(text)
    ensures Polish(text, limit) == SyntaxError ==> !Derivable(text)
    ensures limit >= |text| ==> (Polish(text, limit).Done? <==> Derivable(text)) && Polish(text, limit) != TooComplex
  {
    PolScan(text, 0, WaitOperand, 0, [], [], limit);
    ScanExactly(text);
  }

  // ---- Parentheses --------------------------------------------------------

  /** Opening less closing parentheses. */
  function Nesting(s: string): int {
    if s == "" then 0
    else Nesting(s[..|s| - 1]) + (if s[|s| - 1] == '(' then 1 else if s[|s| - 1] == ')' then -1 else 0)
  }

  /** No prefix closes more than it has opened, and in the end everything is closed. */
  ghost predicate Balanced(s: string) {
    Nesting(s) == 0 && forall k :: 0 <= k <= |s| ==> Nesting(s[..k]) >= 0
  }

  lemma {:induction false} NestingConcat(s: string, t: string)
    ensures Nesting(s + t) == Nesting(s) + Nesting(t)
  {
    if t == "" {
      assert s + t == s;
    } else {
      assert (s + t)[..|s + t| - 1] == s + t[..|t| - 1];
      NestingConcat(s, t[..|t| - 1]);
    }
  }

  lemma {:induction false} BalancedConcat(s: string, t: string)
    requires Balanced(s) && Balanced(t)
    ensures Balanced(s + t)
  {
    hide Nesting;
    NestingConcat(s, t);
    forall k | 0 <= k <= |s + t| ensures Nesting((s + t)[..k]) >= 0 {
      if k <= |s| {
        assert (s + t)[..k] == s[..k];
      } else {
        assert (s + t)[..k] == s + t[..k - |s|];
        NestingConcat(s, t[..k - |s|]);
      }
    }
  }

  lemma {:induction false} BalancedPlain(s: string)
    requires forall k :: 0 <= k < |s| ==> s[k] != '(' && s[k] != ')'
    ensures Balanced(s)
  {
    PlainNesting(s);
    forall k | 0 <= k <= |s| ensures Nesting(s[..k]) >= 0 {
      PlainNesting(s[..k]);
    }
  }

  lemma {:induction false} PlainNesting(s: string)
    requires forall k :: 0 <= k < |s| ==> s[k] != '(' && s[k] != ')'
    ensures Nesting(s) == 0
  {
    if s != "" {
      PlainNesting(s[..|s| - 1]);
    }
  }

  lemma {:induction false} BalancedParens(s: string)
    requires Balanced(s)
    ensures Balanced("(" + (s + ")"))
  {
    hide Nesting;
    var u := "(" + (s + ")");
    ParenNesting();
    NestingConcat("(", s + ")");
    NestingConcat(s, ")");
    forall k | 0 <= k <= |u| ensures Nesting(u[..k]) >= 0 {
      if k == 0 {
        assert u[..k] == "";
      } else if k <= |s| + 1 {
        assert u[..k] == "(" + s[..k - 1];
        NestingConcat("(", s[..k - 1]);
      } else {
        assert u[..k] == u;
      }
    }
  }

  lemma {:induction false} ParenNesting()
    ensures Nesting("") == 0 && Nesting("(") == 1 && Nesting(")") == -1
  {
    assert "("[..0] == "" && ")"[..0] == "";
  }

  lemma {:induction false} SpelledBalanced(e: Expr)
    requires Proper(e)
    ensures Balanced(Spelled(e))
    decreases e
  {
    hide Balanced;
    match e
    case Number(pre, s) =>
      BalancedPlain(Blanks(pre) + s);
    case Neg(pre, f) =>
      SpelledBalanced(f);
      BalancedPlain("!");
      BalancedPlain(Blanks(pre));
      BalancedConcat("!", Spelled(f));
      BalancedConcat(Blanks(pre), "!" + Spelled(f));
    case Paren(pre, f, post) =>
      SpelledBalanced(f);
      BalancedPlain(Blanks(pre));
      BalancedPlain(Blanks(post));
      BalancedConcat(Spelled(f), Blanks(post));
      BalancedParens(Spelled(f) + Blanks(post));
      assert Spelled(f) + Blanks(post) + ")" == Spelled(f) + (Blanks(post) + ")");
      BalancedConcat(Blanks(pre), "(" + (Spelled(f) + (Blanks(post) + ")")));
    case Binary(l, mid, op, r) =>
      SpelledBalanced(l);
      SpelledBalanced(r);
      BalancedPlain(Blanks(mid));
      BalancedPlain([op]);
      BalancedConcat([op], Spelled(r));
      BalancedConcat(Blanks(mid), [op] + Spelled(r));
      BalancedConcat(Spelled(l), Blanks(mid) + ([op] + Spelled(r)));
  }

  /** The parentheses of an accepted text are balanced, and none is closed before it was opened. */
  lemma {:induction false} AcceptedBalanced(text: string, limit: nat)
    requires NoNul(text) && Polish(text, limit).Done?
    ensures Balanced(text)
  {
    AcceptedExactly(text, limit);
    var e, post :| Spells(text, e, post);
    SpelledBalanced(e);
    BalancedPlain(Blanks(post));
    BalancedConcat(Spelled(e), Blanks(post));
  }
}

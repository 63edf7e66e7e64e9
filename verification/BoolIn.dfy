/** bqarr_in and bqarr_out: the parser at work, and the whole round trip. */
module BoolIn {
  import opened BoolQuery
  import opened BoolExec
  import opened BoolText
  import opened BoolRead
  import opened BoolPostfix
  import opened BoolGrammar

  /** A list in reverse order. */
  function Rev(s: seq<Node>): (r: seq<Node>)
    ensures |r| == |s|
  {
    if s == [] then [] else Rev(s[1..]) + [s[0]]
  }

  datatype Status = Ok | Syntax | Complex

  /** WORKSTATE; str is the list of nodes, newest first. */
  class WorkState {
    const buf: string
    var pos: nat
    var state: LexState
    var count: int
    var str: seq<Node>

    constructor (text: string)
      ensures buf == text && pos == 0 && state == WaitOperand && count == 0 && str == []
    {
      buf, pos, state, count, str := text, 0, WaitOperand, 0, [];
    }

    /** gettoken. */
    method NextToken() returns (tok: Token)
      requires pos <= |buf| && state != WaitEndOperand && ShortNumbers(buf)
      modifies this`pos, this`state, this`count
      ensures Lexed(tok, pos, state, count) == GetToken(buf, old(pos), old(state), old(count), "")
    {
      hide Atoi;
      var nnn, curnnn := new char[16], 0;
      ghost var r := GetToken(buf, pos, state, count, "");
      assert nnn[..curnnn] == "";
      while true
        invariant pos <= |buf| && 0 <= curnnn <= 15 && (state != WaitEndOperand ==> curnnn == 0)
        invariant state == WaitEndOperand ==> curnnn + DigitRun(buf, pos) <= 15
        invariant GetToken(buf, pos, state, count, nnn[..curnnn]) == r
        decreases |buf| - pos
      {
        var c := At(buf, pos);
        match state {
        case WaitOperand =>
          if IsDigit(c) || c == '-' {
            state := WaitEndOperand;
            nnn[0], curnnn := c, 1;
            assert nnn[..curnnn] == [c];
          } else if c == '!' {
            pos := pos + 1;
            return TOpr(NOT);
          } else if c == '(' {
            count := count + 1;
            pos := pos + 1;
            return TOpen;
          } else if c != ' ' {
            return TErr;
          }
        case WaitEndOperand =>
          if IsDigit(c) {
            ghost var s := nnn[..curnnn];
            nnn[curnnn], curnnn := c, curnnn + 1;
            assert nnn[..curnnn] == s + [c];
          } else {
            nnn[curnnn] := '\0';
            state := WaitOperator;
            return if count != 0 && c == '\0' then TErr else TVal(Atoi(nnn[..curnnn]));
          }
        case WaitOperator =>
          if c == '&' || c == '|' {
            state := WaitOperand;
            pos := pos + 1;
            return TOpr(if c == '&' then AND else OR);
          } else if c == ')' {
            pos := pos + 1;
            count := count - 1;
            return if count < 0 then TErr else TClose;
          } else if c == '\0' {
            return if count != 0 then TErr else TEnd;
          } else if c != ' ' {
            return TErr;
          }
        }
        pos := pos + 1;
      }
    }

    /** pushquery. */
    method PushQuery(n: Node)
      modifies this`str
      ensures Rev(str) == Rev(old(str)) + [n]
    {
      str := [n] + str;
      assert str[1..] == old(str);
    }

    /** Pops & and ! from the stack. */
    method PopTightOps(stack: seq<int>) returns (rest: seq<int>)
      modifies this`str
      ensures (rest, Rev(str)) == PopTight(stack, Rev(old(str)))
    {
      hide Rev;
      rest := stack;
      while rest != [] && IsTight(rest[|rest| - 1])
        invariant PopTight(rest, Rev(str)) == PopTight(stack, Rev(old(str)))
      {
        var op := rest[|rest| - 1];
        rest := rest[..|rest| - 1];
        PushQuery(Node(false, op));
      }
    }

    /** Pops everything. */
    method PopOps(stack: seq<int>)
      modifies this`str
      ensures Rev(str) == Rev(old(str)) + PopAll(stack)
    {
      hide Rev;
      var rest := stack;
      while rest != []
        invariant Rev(str) + PopAll(rest) == Rev(old(str)) + PopAll(stack)
      {
        var op := rest[|rest| - 1];
        rest := rest[..|rest| - 1];
        PushQuery(Node(false, op));
      }
    }

    /** makepol; its errors end the whole parse. */
    method MakePol() returns (s: Status)
      requires pos <= |buf| && state != WaitEndOperand && ShortNumbers(buf)
      modifies this
      ensures match Pol(buf, old(pos), old(state), old(count), [], Rev(old(str)), STACKDEPTH)
        case Done(i, st, c, out) => s == Ok && pos == i && state == st && count == c && Rev(str) == out
        case SyntaxError => s == Syntax
        case TooComplex => s == Complex
      decreases |buf| - pos
    {
      hide GetToken, PopTight, PopAll, Rev;
      var stack: seq<int> := [];
      ghost var r := Pol(buf, pos, state, count, [], Rev(str), STACKDEPTH);
      while true
        invariant old(pos) <= pos <= |buf| && state != WaitEndOperand
        invariant Pol(buf, pos, state, count, stack, Rev(str), STACKDEPTH) == r
        decreases |buf| - pos
      {
        var tok := NextToken();
        match tok
        case TEnd =>
          PopOps(stack);
          return Ok;
        case TVal(v) =>
          PushQuery(Node(true, v));
          stack := PopTightOps(stack);
        case TOpr(op) =>
          if stack != [] && op == OR {
            PushQuery(Node(false, op));
          } else {
            if |stack| == STACKDEPTH {
              return Complex;
            }
            stack := stack + [op];
          }
        case TOpen =>
          var n := MakePol();
          if n != Ok {
            return n;
          }
          if stack != [] && IsTight(stack[|stack| - 1]) {
            var op := stack[|stack| - 1];
            stack := stack[..|stack| - 1];
            PushQuery(Node(false, op));
          }
        case TClose =>
          PopOps(stack);
          return Ok;
        case TErr =>
          return Syntax;
      }
    }
  }

  // ---- bqarr_in -----------------------------------------------------------

  datatype InResult = Parsed(items: seq<Item>) | Failed(s: Status) | Empty

  lemma {:induction false} RevAt(s: seq<Node>, i: nat)
    requires i < |s|
    ensures Rev(s)[|s| - 1 - i] == s[i]
  {
    if i > 0 {
      RevAt(s[1..], i - 1);
    }
  }

  /** The nodes of the list, from the last array position down. */
  method Unlist(str: seq<Node>) returns (ptr: array<Item>)
    ensures fresh(ptr) && ptr.Length == |str| && forall i :: 0 <= i < |str| ==> ptr[i].node == Rev(str)[i]
  {
    var num := |str|;
    ptr := new Item[num](_ => Item(Node(true, 0), 0));
    var list := str;
    var i := num;
    while i > 0
      invariant 0 <= i <= num && list == str[num - i..]
      invariant forall k :: i <= k < num ==> ptr[k].node == Rev(str)[k]
    {
      RevAt(str, num - i);
      i := i - 1;
      ptr[i] := Item(list[0], 0);
      list := list[1..];
    }
  }

  lemma {:induction false} NodesPlaced(items: seq<Item>, q: Query)
    requires |items| == |Nodes(q)| && forall i :: 0 <= i < |items| ==> items[i].node == Nodes(q)[i]
    ensures NodesAt(items, |items| - 1, q)
  {
  }

  /** bqarr_in: the linked postfix form, or the parser's error; what is parsed is derivable, and what is refused by a
      syntax error is not. On a bad | findoprnd would run off the array. */
  method BqarrIn(text: string) returns (r: InResult)
    requires !BadBar(text) && ShortNumbers(text)
    ensures match Polish(text, STACKDEPTH)
      case Done(i, st, c, out) => r.Parsed? && exists q :: out == Nodes(q) && r.items == Stored(q)
      case SyntaxError => r == Failed(Syntax)
      case TooComplex => r == Failed(Complex)
    ensures NoNul(text) ==> (r.Parsed? ==> Derivable(text)) && (r == Failed(Syntax) ==> !Derivable(text))
  {
    hide Derivable, NoNul, Pol, Nodes, Stored, NodesAt, BadBar;
    WellFormedExactly(text);
    if NoNul(text) {
      AcceptedExactly(text, STACKDEPTH);
    }
    var state := new WorkState(text);
    assert Rev([]) == [];
    var s := state.MakePol();
    if s != Ok {
      return Failed(s);
    }
    ghost var q :| Rev(state.str) == Nodes(q);
    if |state.str| == 0 {
      return Empty;
    }
    var ptr := Unlist(state.str);
    NodesPlaced(ptr[..], q);
    var pos := FindOprnd(ptr, ptr.Length - 1, q);
    assert ptr[..] == Stored(q);
    r := Parsed(ptr[..]);
  }

  // ---- The round trip -----------------------------------------------------

  /** Nodes of pending operands, and the conjunctions between them. */
  function Weight(c: seq<Query>): int { |NodesAll(c)| + |c| - 1 }

  lemma {:induction false} ConjSize(c: seq<Query>)
    requires c != []
    ensures |Nodes(Conj(c))| == Weight(c) && Weight([Conj(c)]) == Weight(c)
  {
    ConjNodes(c);
    AndsSize(|c| - 1);
    NodesAllOne(Conj(c));
  }

  lemma {:induction false} AndsSize(k: nat)
    ensures |AndNodes(k)| == k
  {
    if k > 0 {
      AndsSize(k - 1);
    }
  }

  lemma {:induction false} SnocSize(c: seq<Query>, q: Query)
    ensures Weight(c + [q]) == Weight(c) + |Nodes(q)| + 1
  {
    NodesAllSnoc(c, q);
  }

  /** Reading neither loses nor adds a node. */
  lemma {:induction false} FeedSize(q: Query, c: seq<Query>)
    ensures Weight(Feed(q, c)) == Weight(c) + |Nodes(q)| + 1
    decreases q, if q.Or? then 1 else 0
  {
    hide Weight, Conj;
    match q
    case Val(v) =>
      SnocSize(c, q);
      ConjSize(c + [q]);
    case Not(p) =>
      SnocSize(c, q);
      ConjSize(c + [q]);
      if !p.Val? {
        ReadSize(p);
        SnocSize(c, Not(Read(p)));
      }
    case And(l, r) =>
      FeedSize(l, c);
      FeedSize(r, Feed(l, c));
    case Or(l, r) =>
      var u := Read(q);
      ReadSize(q);
      if c == [] {
        SnocSize([], u);
        assert [] + [u] == [u];
      } else {
        var d, x := c[..|c| - 1], c[|c| - 1];
        assert c == d + [x];
        SnocSize(d, x);
        SnocSize(d, And(x, u));
      }
  }

  lemma {:induction false} ReadSize(q: Query)
    ensures |Nodes(Read(q))| == |Nodes(q)|
    decreases q, if q.Or? then 0 else 1
  {
    hide Weight, Conj;
    NoWeight();
    if !q.Or? {
      FeedSize(q, []);
      ConjSize(Feed(q, []));
    } else {
      var c := Feed(q.l, []);
      FeedSize(q.l, []);
      if |c| == 1 {
        assert c == [] + [c[0]];
        SnocSize([], c[0]);
        FeedSize(q.r, []);
        ConjSize(Feed(q.r, []));
      } else {
        var d, x, y := c[..|c| - 2], c[|c| - 2], c[|c| - 1];
        assert c == (d + [x]) + [y];
        SnocSize(d + [x], y);
        SnocSize(d, x);
        SnocSize(d, Or(x, y));
        FeedSize(q.r, JoinedByOr(c));
        ConjSize(Feed(q.r, JoinedByOr(c)));
      }
    }
  }

  lemma {:induction false} NoWeight()
    ensures Weight([]) == -1
  {
  }

  lemma {:induction false} FeedLinkable(q: Query, c: seq<Query>)
    requires NotsOnValues(q) && Linkable(q) && |c| <= 1 && (c != [] ==> Linkable(c[0]) && |Nodes(q)| < 0x8000)
    ensures |Feed(q, c)| == 1 && Linkable(Feed(q, c)[0])
    decreases q, if q.Or? then 1 else 0
  {
    match q
    case Val(v) => ConjOfTwo(c, q);
    case Not(p) => ConjOfTwo(c, q);
    case And(l, r) =>
      FeedLinkable(l, c);
      FeedLinkable(r, Feed(l, c));
    case Or(l, r) =>
      ReadLinkable(q);
      ReadSize(q);
  }

  lemma {:induction false} ConjOfTwo(c: seq<Query>, q: Query)
    requires |c| <= 1
    ensures Conj(c + [q]) == if c == [] then q else And(c[0], q)
  {
    if c != [] {
      assert (c + [q])[1..] == [q];
    }
  }

  /** When only values are negated, reading a query back makes no right operand longer than the query had. */
  lemma {:induction false} ReadLinkable(q: Query)
    requires NotsOnValues(q) && Linkable(q)
    ensures Linkable(Read(q))
    decreases q, if q.Or? then 0 else 1
  {
    if q.Or? {
      FeedLinkable(q.l, []);
      FeedLinkable(q.r, []);
      FeedSize(q.r, []);
      ConjSize(Feed(q.r, []));
      NoWeight();
    } else {
      FeedLinkable(q, []);
    }
  }

  /** bqarr_out. */
  method BqarrOut(items: seq<Item>, ghost q: Query) returns (text: string)
    requires IsQuery(items, q)
    ensures text == Infix(q, true)
  {
    hide Infix, Nodes;
    LinkedNodes(q, x => x);
    NodesPlaced(items, q);
    var cur;
    text, cur := InfixOut(items, |items| - 1, true, q);
  }

  lemma {:induction false} LinkedNodes(q: Query, keep: int -> int)
    ensures forall i :: 0 <= i < |Nodes(q)| ==> Linked(q, keep)[i].node == Nodes(q)[i]
  {
    match q
    case Val(v) =>
    case Not(p) => LinkedNodes(p, keep);
    case And(l, r) =>
      LinkedNodes(l, keep);
      LinkedNodes(r, keep);
    case Or(l, r) =>
      LinkedNodes(l, keep);
      LinkedNodes(r, keep);
  }

  lemma {:induction false} SameNodes(p: Query, q: Query)
    requires Nodes(p) == Nodes(q)
    ensures p == q
    decreases p
  {
    var n := Nodes(p);
    assert n[|n| - 1] == Nodes(q)[|n| - 1];
    match p
    case Val(v) =>
    case Not(a) =>
      assert Nodes(a) == n[..|n| - 1] == Nodes(q.q);
      SameNodes(a, q.q);
    case And(l, r) =>
      SameOperands(Nodes(l), r, Nodes(q.l), q.r, n[..|n| - 1]);
      SameNodes(l, q.l);
      SameNodes(r, q.r);
    case Or(l, r) =>
      SameOperands(Nodes(l), r, Nodes(q.l), q.r, n[..|n| - 1]);
      SameNodes(l, q.l);
      SameNodes(r, q.r);
  }

  /** Two postfix forms at the end of the same list are the same. */
  lemma {:induction false} SameOperands(a: seq<Node>, r: Query, b: seq<Node>, s: Query, n: seq<Node>)
    requires a + Nodes(r) == n == b + Nodes(s)
    ensures a == b && Nodes(r) == Nodes(s)
  {
    SameLength(a, r, b, s);
    assert a == n[..|a|] && b == n[..|b|];
    assert Nodes(r) == n[|a|..] && Nodes(s) == n[|b|..];
  }

  lemma {:induction false} SameLength(a: seq<Node>, r: Query, b: seq<Node>, s: Query)
    requires a + Nodes(r) == b + Nodes(s)
    ensures |Nodes(r)| == |Nodes(s)|
    decreases r
  {
    var n := a + Nodes(r);
    assert n[|n| - 1] == Nodes(r)[|Nodes(r)| - 1] == Nodes(s)[|Nodes(s)| - 1];
    match r
    case Val(v) =>
    case Not(p) =>
      assert a + Nodes(p) == n[..|n| - 1] == b + Nodes(s.q);
      SameLength(a, p, b, s.q);
    case And(x, y) =>
      BinaryLength(r, a, x, y, b, s.l, s.r, n[..|n| - 1]);
    case Or(x, y) =>
      BinaryLength(r, a, x, y, b, s.l, s.r, n[..|n| - 1]);
  }

  lemma {:induction false} BinaryLength(whole: Query, a: seq<Node>, x: Query, y: Query, b: seq<Node>, u: Query, v: Query, n: seq<Node>)
    requires x < whole && y < whole && a + (Nodes(x) + Nodes(y)) == n == b + (Nodes(u) + Nodes(v))
    ensures |Nodes(x)| + |Nodes(y)| == |Nodes(u)| + |Nodes(v)|
    decreases whole, 0
  {
    assert (a + Nodes(x)) + Nodes(y) == n == (b + Nodes(u)) + Nodes(v);
    SameLength(a + Nodes(x), y, b + Nodes(u), v);
    assert a + Nodes(x) == n[..|n| - |Nodes(y)|] == b + Nodes(u);
    SameLength(a, x, b, u);
  }

  /** What is stored for a query has true links exactly when the query is linkable. */
  lemma {:induction false} StoredIsQuery(p: Query, q: Query, items: seq<Item>)
    requires Nodes(p) == Nodes(q) && items == Stored(p)
    ensures items == Stored(q) && (IsQuery(items, q) <==> Linkable(q))
  {
    SameNodes(p, q);
    StoredExactly(q);
  }

  lemma {:induction false} PrintedShort(q: Query)
    requires Values32(q)
    ensures ShortNumbers(Infix(q, true))
  {
    hide Infix, DigitRun;
    InfixTen(q, true);
  }

  /** Printing a query and reading it back: the links are true exactly when no right operand of what is read is too long,
      which for a stored query that negates values only is always so; then it executes alike on every array. */
  method RoundTrip(items: seq<Item>, ghost q: Query) returns (r: InResult)
    requires IsQuery(items, q) && ReadableLevel(q, STACKDEPTH) && Values32(q)
    ensures r.Parsed? && r.items == Stored(Read(q)) && |r.items| == |items|
    ensures IsQuery(r.items, Read(q)) <==> Linkable(Read(q))
    ensures NotsOnValues(q) && items == Stored(q) ==> Linkable(Read(q))
    ensures Clean(q) && Linkable(Read(q)) ==>
      forall arr :: ExecConsistent(r.items, arr, true, Read(q)) == ExecConsistent(items, arr, true, q)
  {
    hide Infix, Nodes, Pol, Eval, ReadableLevel, Read, Clean, Stored, ExecConsistent, Linkable, BadBar;
    var text := BqarrOut(items, q);
    PrintedIsRead(q, STACKDEPTH);
    ReadSize(q);
    WellFormedExactly(text);
    PrintedShort(q);
    r := BqarrIn(text);
    ghost var p :| Nodes(Read(q)) == Nodes(p) && r.items == Stored(p);
    StoredIsQuery(p, Read(q), r.items);
    SizeOfStored(Read(q));
    if NotsOnValues(q) && items == Stored(q) {
      StoredExactly(q);
      ReadLinkable(q);
    }
    if Clean(q) && Linkable(Read(q)) {
      forall arr: seq<int> ensures ExecConsistent(r.items, arr, true, Read(q)) == ExecConsistent(items, arr, true, q) {
        ExecConsistentIs(r.items, arr, true, Read(q));
        ExecConsistentIs(items, arr, true, q);
      }
    }
  }

  lemma {:induction false} SizeOfStored(q: Query)
    ensures |Stored(q)| == |Nodes(q)|
  {
  }
}

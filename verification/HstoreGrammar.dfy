/** Which texts hstore_in accepts, and the pairs they give: those a grammar derives. */
module HstoreGrammar {
  import opened HstoreData
  import opened HstoreText
  import opened Texts
  import Bytes

  // ---- The grammar --------------------------------------------------------

  /** A character as it stands, or behind a backslash. */
  datatype Piece = Plain(c: Bytes.byte) | Slashed(c: Bytes.byte)

  datatype Lexeme = Bare(cs: seq<Piece>) | InQuotes(cs: seq<Piece>)

  /** blanks key blanks => blanks value blanks. */
  datatype PairForm = PairForm(b0: str, key: Lexeme, b1: str, b2: str, val: Lexeme, b3: str)

  /** Pairs with commas between them; the last comma may be followed by blanks only. */
  datatype Source = Empty(b: str) | Last(p: PairForm) | More(p: PairForm, rest: Source)

  function PieceText(x: Piece): str { if x.Plain? then [x.c] else [BACKSLASH, x.c] }

  function Spell(cs: seq<Piece>): str {
    if cs == [] then [] else PieceText(cs[0]) + Spell(cs[1..])
  }

  function LexemeText(w: Lexeme): str {
    if w.Bare? then Spell(w.cs) else [QUOTE] + (Spell(w.cs) + [QUOTE])
  }

  function PairText(p: PairForm): str {
    p.b0 + (LexemeText(p.key) + (p.b1 + ([EQUALS, GREATER] + (p.b2 + (LexemeText(p.val) + p.b3)))))
  }

  function SourceText(s: Source): str {
    match s
    case Empty(b) => b
    case Last(p) => PairText(p)
    case More(p, rest) => PairText(p) + ([COMMA] + SourceText(rest))
  }

  predicate Blank(b: str) { forall k :: 0 <= k < |b| ==> IsSpace(b[k]) }

  /** What may stand unescaped in an unquoted key, or an unquoted value. */
  predicate BareChar(c: Bytes.byte, isval: bool, first: bool) {
    && c != 0 && !IsSpace(c) && c != BACKSLASH && (first ==> c != QUOTE)
    && if isval then first || c != COMMA else c != EQUALS
  }

  ghost predicate BarePieces(cs: seq<Piece>, isval: bool, first: bool) {
    forall k :: 0 <= k < |cs| ==> cs[k].c != 0 && (cs[k].Plain? ==> BareChar(cs[k].c, isval, first && k == 0))
  }

  ghost predicate QuotedPieces(cs: seq<Piece>) {
    forall k :: 0 <= k < |cs| ==> cs[k].c != 0 && (cs[k].Plain? ==> cs[k].c != QUOTE && cs[k].c != BACKSLASH)
  }

  ghost predicate ProperLexeme(w: Lexeme, isval: bool) {
    match w
    case Bare(cs) => cs != [] && BarePieces(cs, isval, true)
    case InQuotes(cs) => QuotedPieces(cs)
  }

  ghost predicate ProperPair(p: PairForm) {
    Blank(p.b0) && ProperLexeme(p.key, false) && Blank(p.b1) && Blank(p.b2) && ProperLexeme(p.val, true) && Blank(p.b3)
  }

  ghost predicate ProperSource(s: Source) {
    match s
    case Empty(b) => Blank(b)
    case Last(p) => ProperPair(p)
    case More(p, rest) => ProperPair(p) && ProperSource(rest)
  }

  // ---- What a text stands for ----------------------------------------------

  function Letters(cs: seq<Piece>): (w: str)
    ensures |w| == |cs| && forall k :: 0 <= k < |cs| ==> w[k] == cs[k].c
  {
    seq(|cs|, k requires 0 <= k < |cs| => cs[k].c)
  }

  /** The word null in small or capital letters. */
  predicate SaysNull(w: str) {
    |w| == 4 && (w[0] == 110 || w[0] == 78) && (w[1] == 117 || w[1] == 85) && (w[2] == 108 || w[2] == 76) && (w[3] == 108 || w[3] == 76)
  }

  /** The value is null exactly when it is the unquoted word null. */
  function Stands(p: PairForm): Item {
    var w := Letters(p.val.cs);
    Item(Trunc16(Letters(p.key.cs)), if p.val.Bare? && SaysNull(w) then None else Some(Trunc16(w)))
  }

  function StandsFor(s: Source): seq<Item> {
    match s
    case Empty(b) => []
    case Last(p) => [Stands(p)]
    case More(p, rest) => [Stands(p)] + StandsFor(rest)
  }

  ghost predicate Derives(s: Source, text: str) {
    ProperSource(s) && SourceText(s) == text
  }

  // ---- Every derivable text is read ----------------------------------------

  lemma {:induction false} HasTwo(text: str, i: nat, c: Bytes.byte, d: Bytes.byte, s: str)
    requires Has(text, i, [c, d] + s)
    ensures i + 2 <= |text| && text[i] == c && text[i + 1] == d && Has(text, i + 2, s)
  {
    HasSplit(text, i, [c, d], s);
    assert text[i..i + 2][0] == c && text[i..i + 2][1] == d;
  }

  lemma {:induction false} HasNext(text: str, i: nat, c: Bytes.byte, s: str)
    requires Has(text, i, [c] + s)
    ensures i < |text| && text[i] == c && Has(text, i + 1, s)
  {
    HasSplit(text, i, [c], s);
    assert text[i..i + 1][0] == c;
  }

  lemma {:induction false} LettersFirst(cs: seq<Piece>, word: str)
    requires cs != []
    ensures word + Letters(cs) == (word + [cs[0].c]) + Letters(cs[1..])
  {
    assert Letters(cs) == [cs[0].c] + Letters(cs[1..]);
  }

  /** One piece of an unquoted word. */
  lemma {:induction false} GvPiece(text: str, isval: bool, i: nat, x: Piece, s: str, word: str)
    requires i >= 1 && Has(text, i, PieceText(x) + s) && x.c != 0 && (x.Plain? ==> BareChar(x.c, isval, false))
    ensures var j := i + |PieceText(x)|;
      Has(text, j, s) && j <= |text| && Gv(text, isval, InVal, i, word, false) == Gv(text, isval, InVal, j, word + [x.c], false)
  {
    if x.Plain? {
      HasNext(text, i, x.c, s);
    } else {
      HasTwo(text, i, BACKSLASH, x.c, s);
    }
  }

  lemma {:induction false} GvPieces(text: str, isval: bool, i: nat, cs: seq<Piece>, word: str)
    requires i >= 1 && Has(text, i, Spell(cs)) && BarePieces(cs, isval, false)
    ensures var j := i + |Spell(cs)|;
      j <= |text| && Gv(text, isval, InVal, i, word, false) == Gv(text, isval, InVal, j, word + Letters(cs), false)
    decreases |cs|
  {
    hide Gv, Has;
    if cs == [] {
      assert word + Letters(cs) == word;
      Within(text, i, []);
    } else {
      GvPiece(text, isval, i, cs[0], Spell(cs[1..]), word);
      GvPieces(text, isval, i + |PieceText(cs[0])|, cs[1..], word + [cs[0].c]);
      LettersFirst(cs, word);
    }
  }

  lemma {:induction false} Within(text: str, i: nat, s: str)
    requires Has(text, i, s)
    ensures i + |s| <= |text|
  {
  }

  /** One piece inside quotes. */
  lemma {:induction false} GvQuotedPiece(text: str, isval: bool, i: nat, x: Piece, s: str, word: str)
    requires i >= 1 && Has(text, i, PieceText(x) + s) && x.c != 0 && (x.Plain? ==> x.c != QUOTE && x.c != BACKSLASH)
    ensures var j := i + |PieceText(x)|;
      Has(text, j, s) && j <= |text| && Gv(text, isval, InEscVal, i, word, true) == Gv(text, isval, InEscVal, j, word + [x.c], true)
  {
    if x.Plain? {
      HasNext(text, i, x.c, s);
    } else {
      HasTwo(text, i, BACKSLASH, x.c, s);
    }
  }

  lemma {:induction false} GvQuotedPieces(text: str, isval: bool, i: nat, cs: seq<Piece>, word: str)
    requires i >= 1 && Has(text, i, Spell(cs) + [QUOTE]) && QuotedPieces(cs)
    ensures var j := i + |Spell(cs)|; j < |text| && Gv(text, isval, InEscVal, i, word, true) == Word(word + Letters(cs), true, j)
    decreases |cs|
  {
    hide Gv, Has;
    if cs == [] {
      assert word + Letters(cs) == word;
      assert Spell(cs) + [QUOTE] == [QUOTE];
      GvClosed(text, isval, i, word);
    } else {
      var x, rest := cs[0], cs[1..];
      assert Spell(cs) + [QUOTE] == PieceText(x) + (Spell(rest) + [QUOTE]);
      GvQuotedPiece(text, isval, i, x, Spell(rest) + [QUOTE], word);
      GvQuotedPieces(text, isval, i + |PieceText(x)|, rest, word + [x.c]);
      LettersFirst(cs, word);
    }
  }

  /** What ends an unquoted word. */
  predicate Stop(c: Bytes.byte, isval: bool) {
    c == 0 || IsSpace(c) || c == if isval then COMMA else EQUALS
  }

  /** A word read from position i that ends before position j: the reader stands on its last character, or on the blank. */
  ghost predicate ReadTo(text: str, w: Lexeme, j: nat, r: GvResult) {
    && r.Word? && r.word == Letters(w.cs) && r.escaped == w.InQuotes?
    && (r.ptr + 1 == j || (r.ptr == j < |text| && IsSpace(text[j])))
  }

  lemma {:induction false} GvLexeme(text: str, isval: bool, i: nat, w: Lexeme)
    requires Has(text, i, LexemeText(w)) && ProperLexeme(w, isval)
    requires w.Bare? ==> Stop(At(text, i + |LexemeText(w)|), isval)
    ensures i <= |text| && ReadTo(text, w, i + |LexemeText(w)|, Gv(text, isval, WaitVal, i, [], false))
  {
    hide Has, Spell, BareChar, Gv, BarePieces, QuotedPieces, Letters, PieceText;
    var cs := w.cs;
    Within(text, i, LexemeText(w));
    assert [] + Letters(cs) == Letters(cs);
    if w.InQuotes? {
      HasNext(text, i, QUOTE, Spell(cs) + [QUOTE]);
      GvOpen(text, isval, i);
      GvQuotedPieces(text, isval, i + 1, cs, []);
    } else {
      RestBare(cs, isval);
      GvFirstPiece(text, isval, i, cs[0], Spell(cs[1..]));
      LettersFirst(cs, []);
      assert [] + [cs[0].c] == [cs[0].c];
      var j := i + |PieceText(cs[0])|;
      GvPieces(text, isval, j, cs[1..], [cs[0].c]);
      GvStop(text, isval, i + |Spell(cs)|, Letters(cs));
    }
  }

  lemma {:induction false} GvOpen(text: str, isval: bool, i: nat)
    requires i < |text| && text[i] == QUOTE
    ensures Gv(text, isval, WaitVal, i, [], false) == Gv(text, isval, InEscVal, i + 1, [], true)
  {
  }

  lemma {:induction false} GvStop(text: str, isval: bool, j: nat, word: str)
    requires 1 <= j <= |text| && Stop(At(text, j), isval)
    ensures var r := Gv(text, isval, InVal, j, word, false);
      r.Word? && r.word == word && !r.escaped && (r.ptr + 1 == j || (r.ptr == j < |text| && IsSpace(text[j])))
  {
  }

  /** The first piece of an unquoted word. */
  lemma {:induction false} GvFirstPiece(text: str, isval: bool, i: nat, x: Piece, s: str)
    requires Has(text, i, PieceText(x) + s) && x.c != 0 && (x.Plain? ==> BareChar(x.c, isval, true))
    ensures var j := i + |PieceText(x)|;
      Has(text, j, s) && i < j <= |text| && Gv(text, isval, WaitVal, i, [], false) == Gv(text, isval, InVal, j, [x.c], false)
  {
    hide Has;
    assert [] + [x.c] == [x.c];
    if x.Plain? {
      HasNext(text, i, x.c, s);
    } else {
      HasTwo(text, i, BACKSLASH, x.c, s);
    }
  }

  lemma {:induction false} RestBare(cs: seq<Piece>, isval: bool)
    requires cs != [] && BarePieces(cs, isval, true)
    ensures BarePieces(cs[1..], isval, false) && Spell(cs) == PieceText(cs[0]) + Spell(cs[1..])
    ensures cs[0].c != 0 && (cs[0].Plain? ==> BareChar(cs[0].c, isval, true))
  {
  }

  lemma {:induction false} BlankFirst(text: str, i: nat, b: str)
    requires Has(text, i, b) && Blank(b) && b != []
    ensures i < |text| && IsSpace(text[i]) && Has(text, i + 1, b[1..]) && Blank(b[1..])
  {
    assert b == [b[0]] + b[1..];
    HasNext(text, i, b[0], b[1..]);
  }

  lemma {:induction false} GvBlanks(text: str, isval: bool, i: nat, b: str)
    requires Has(text, i, b) && Blank(b)
    ensures i + |b| <= |text| && Gv(text, isval, WaitVal, i, [], false) == Gv(text, isval, WaitVal, i + |b|, [], false)
    decreases |b|
  {
    if b != [] {
      BlankFirst(text, i, b);
      GvBlanks(text, isval, i + 1, b[1..]);
    }
  }

  lemma {:induction false} ParseBlanks(text: str, st: PState, i: nat, b: str, key: str, pairs: seq<Item>)
    requires Has(text, i, b) && Blank(b) && (st == WEq || (st == WDel && key == []))
    ensures i + |b| <= |text| && Parse(text, st, i, key, pairs) == Parse(text, st, i + |b|, key, pairs)
    decreases |b|
  {
    if b != [] {
      BlankFirst(text, i, b);
      ParseBlanks(text, st, i + 1, b[1..], key, pairs);
    }
  }

  lemma {:induction false} OneBlank(text: str, st: PState, i: nat, key: str, pairs: seq<Item>)
    requires i < |text| && IsSpace(text[i]) && (st == WEq || (st == WDel && key == []))
    ensures Parse(text, st, i, key, pairs) == Parse(text, st, i + 1, key, pairs)
  {
  }

  /** Reading a key, after the blanks before it. */
  lemma {:induction false} ParseLexeme(text: str, i: nat, b: str, w: Lexeme, pairs: seq<Item>)
    requires Has(text, i, b) && Blank(b) && Has(text, i + |b|, LexemeText(w)) && ProperLexeme(w, false)
    requires w.Bare? ==> Stop(At(text, i + |b| + |LexemeText(w)|), false)
    ensures var j := i + |b| + |LexemeText(w)|;
      j <= |text| && Parse(text, WKey, i, [], pairs) == Parse(text, WEq, j, Letters(w.cs), pairs)
  {
    hide Gv, Has;
    Within(text, i + |b|, LexemeText(w));
    GvBlanks(text, false, i, b);
    GvLexeme(text, false, i + |b|, w);
    var j := i + |b| + |LexemeText(w)|;
    if j < |text| && IsSpace(text[j]) {
      OneBlank(text, WEq, j, Letters(w.cs), pairs);
    }
  }

  lemma {:induction false} MakesItem(p: PairForm)
    ensures MakePair(Letters(p.key.cs), Letters(p.val.cs), p.val.InQuotes?) == Stands(p)
  {
  }

  /** Reading a value, after the blanks before it. */
  lemma {:induction false} ParseValue(text: str, i: nat, p: PairForm, pairs: seq<Item>)
    requires Has(text, i, p.b2) && Blank(p.b2) && Has(text, i + |p.b2|, LexemeText(p.val)) && ProperLexeme(p.val, true)
    requires p.val.Bare? ==> Stop(At(text, i + |p.b2| + |LexemeText(p.val)|), true)
    ensures var j := i + |p.b2| + |LexemeText(p.val)|;
      j <= |text| && Parse(text, WVal, i, Letters(p.key.cs), pairs) == Parse(text, WDel, j, [], pairs + [Stands(p)])
  {
    hide Gv, Has, Stands;
    Within(text, i + |p.b2|, LexemeText(p.val));
    GvBlanks(text, true, i, p.b2);
    GvLexeme(text, true, i + |p.b2|, p.val);
    MakesItem(p);
    var j := i + |p.b2| + |LexemeText(p.val)|;
    if j < |text| && IsSpace(text[j]) {
      OneBlank(text, WDel, j, [], pairs + [Stands(p)]);
    }
  }

  /** Blanks and the character behind them start with what ends a word. */
  lemma {:induction false} StopsAt(text: str, i: nat, b: str, isval: bool)
    requires Has(text, i, b) && Blank(b) && Stop(At(text, i + |b|), isval)
    ensures Stop(At(text, i), isval)
  {
    if b != [] {
      BlankFirst(text, i, b);
    }
  }

  /** The parts of a pair stand one behind the other. */
  ghost predicate Places(text: str, i: nat, p: PairForm) {
    var i1 := i + |p.b0|;
    var i2 := i1 + |LexemeText(p.key)|;
    var i3 := i2 + |p.b1|;
    var i5 := i3 + 2 + |p.b2|;
    var i6 := i5 + |LexemeText(p.val)|;
    && Has(text, i, p.b0) && Has(text, i1, LexemeText(p.key)) && Has(text, i2, p.b1)
    && i3 + 2 <= |text| && text[i3] == EQUALS && text[i3 + 1] == GREATER
    && Has(text, i3 + 2, p.b2) && Has(text, i5, LexemeText(p.val)) && Has(text, i6, p.b3)
  }

  lemma {:induction false} PairPlaces(text: str, i: nat, p: PairForm)
    requires Has(text, i, PairText(p))
    ensures Places(text, i, p) && i + |PairText(p)| <= |text|
  {
    hide Has, LexemeText;
    var k, v := LexemeText(p.key), LexemeText(p.val);
    var tail := p.b2 + (v + p.b3);
    Within(text, i, PairText(p));
    HasParts(text, i, p.b0, k, p.b1, [EQUALS, GREATER] + tail);
    var i3 := i + |p.b0| + |k| + |p.b1|;
    HasTwo(text, i3, EQUALS, GREATER, tail);
    HasSplit(text, i3 + 2, p.b2, v + p.b3);
    HasSplit(text, i3 + 2 + |p.b2|, v, p.b3);
  }

  lemma {:induction false} HasParts(text: str, i: nat, a: str, b: str, c: str, d: str)
    requires Has(text, i, a + (b + (c + d)))
    ensures Has(text, i, a) && Has(text, i + |a|, b) && Has(text, i + |a| + |b|, c) && Has(text, i + |a| + |b| + |c|, d)
  {
    hide Has;
    HasSplit(text, i, a, b + (c + d));
    HasSplit(text, i + |a|, b, c + d);
    HasSplit(text, i + |a| + |b|, c, d);
  }

  /** Reading a pair that ends before a comma or the end. */
  lemma {:induction false} ParsePair(text: str, i: nat, p: PairForm, pairs: seq<Item>)
    requires Has(text, i, PairText(p)) && ProperPair(p)
    requires var j := i + |PairText(p)|; At(text, j) == 0 || At(text, j) == COMMA
    ensures var j := i + |PairText(p)|;
      i <= j <= |text| && Parse(text, WKey, i, [], pairs) == Parse(text, WDel, j, [], pairs + [Stands(p)])
  {
    hide Has, Gv, LexemeText, ProperLexeme, Blank, Parse, Stands, At, Letters, PairText;
    PairPlaces(text, i, p);
    PairLength(p);
    var i2 := i + |p.b0| + |LexemeText(p.key)|;
    var i3 := i2 + |p.b1|;
    var i6 := i3 + 2 + |p.b2| + |LexemeText(p.val)|;
    AtIs(text, i3);
    StopsAt(text, i2, p.b1, false);
    ParseLexeme(text, i, p.b0, p.key, pairs);
    ParseBlanks(text, WEq, i2, p.b1, Letters(p.key.cs), pairs);
    ParseArrow(text, i3, Letters(p.key.cs), pairs);
    StopsAt(text, i6, p.b3, true);
    ParseValue(text, i3 + 2, p, pairs);
    ParseBlanks(text, WDel, i6, p.b3, [], pairs + [Stands(p)]);
  }

  lemma {:induction false} PairLength(p: PairForm)
    ensures |PairText(p)| == |p.b0| + |LexemeText(p.key)| + |p.b1| + 2 + |p.b2| + |LexemeText(p.val)| + |p.b3|
  {
  }

  lemma {:induction false} AtIs(text: str, i: nat)
    requires i < |text|
    ensures At(text, i) == text[i]
  {
  }

  lemma {:induction false} ParseArrow(text: str, i: nat, key: str, pairs: seq<Item>)
    requires i + 2 <= |text| && text[i] == EQUALS && text[i + 1] == GREATER
    ensures Parse(text, WEq, i, key, pairs) == Parse(text, WVal, i + 2, key, pairs)
  {
    assert Parse(text, WGt, i + 1, key, pairs) == Parse(text, WVal, i + 2, key, pairs);
  }

  /** A derivable text is read as the pairs it stands for, behind those read before. */
  lemma {:induction false} ParseSource(text: str, i: nat, s: Source, pairs: seq<Item>)
    requires Has(text, i, SourceText(s)) && i + |SourceText(s)| == |text| && ProperSource(s)
    ensures i <= |text| && Parse(text, WKey, i, [], pairs) == Pairs(pairs + StandsFor(s))
    decreases s
  {
    hide Has, Gv, Parse, PairText, Stands, ProperPair;
    match s
    case Empty(b) =>
      assert pairs + StandsFor(s) == pairs;
      GvBlanks(text, false, i, b);
      NothingToRead(text, |text|);
      ReadsNothing(text, i, pairs);
    case Last(p) =>
      ParsePair(text, i, p, pairs);
      ParseDelimiter(text, |text|, pairs + [Stands(p)]);
    case More(p, rest) =>
      HasSplit(text, i, PairText(p), [COMMA] + SourceText(rest));
      var j := i + |PairText(p)|;
      HasNext(text, j, COMMA, SourceText(rest));
      ParsePair(text, i, p, pairs);
      ParseDelimiter(text, j, pairs + [Stands(p)]);
      ParseSource(text, j + 1, rest, pairs + [Stands(p)]);
      assert pairs + StandsFor(s) == (pairs + [Stands(p)]) + StandsFor(rest);
  }

  lemma {:induction false} ReadsNothing(text: str, i: nat, pairs: seq<Item>)
    requires i <= |text| && Gv(text, false, WaitVal, i, [], false) == End
    ensures Parse(text, WKey, i, [], pairs) == Pairs(pairs)
  {
  }

  // ---- Every text that is read is derivable ---------------------------------

  /** The blanks from a position on. */
  function BlanksAt(text: str, i: nat): (b: str)
    requires i <= |text|
    ensures Has(text, i, b) && Blank(b) && i + |b| <= |text| && !IsSpace(At(text, i + |b|))
    decreases |text| - i
  {
    if i < |text| && IsSpace(text[i]) then
      var b := BlanksAt(text, i + 1);
      assert text[i..i + 1 + |b|] == [text[i]] + text[i + 1..i + 1 + |b|];
      [text[i]] + b
    else []
  }

  lemma {:induction false} Join(text: str, i: nat, s: str, t: str)
    requires Has(text, i, s) && Has(text, i + |s|, t)
    ensures Has(text, i, s + t)
  {
    assert text[i..i + |s + t|] == text[i..i + |s|] + text[i + |s|..i + |s| + |t|];
  }

  lemma {:induction false} One(text: str, i: nat)
    requires i < |text|
    ensures Has(text, i, [text[i]]) && (i + 1 < |text| ==> Has(text, i, [text[i], text[i + 1]]))
  {
  }

  lemma {:induction false} BareFirst(x: Piece, cs: seq<Piece>, isval: bool, first: bool)
    requires x.c != 0 && (x.Plain? ==> BareChar(x.c, isval, first)) && BarePieces(cs, isval, false)
    ensures BarePieces([x] + cs, isval, first) && Spell([x] + cs) == PieceText(x) + Spell(cs)
  {
    assert ([x] + cs)[1..] == cs;
  }

  /** A step inside an unquoted word that is read. */
  lemma {:induction false} BareStep(text: str, isval: bool, i: nat, word: str)
    requires NulFree(text) && 1 <= i <= |text| && Gv(text, isval, InVal, i, word, false).Word? && !Stop(At(text, i), isval)
    ensures i < |text| && if text[i] == BACKSLASH
      then i + 1 < |text| && text[i + 1] != 0 && Gv(text, isval, InVal, i + 2, word + [text[i + 1]], false).Word?
      else BareChar(text[i], isval, false) && Gv(text, isval, InVal, i + 1, word + [text[i]], false).Word?
  {
  }

  /** The pieces of an unquoted word from a position inside it. */
  lemma {:induction false} BareRest(text: str, isval: bool, i: nat, word: str) returns (cs: seq<Piece>)
    requires NulFree(text) && 1 <= i <= |text| && Gv(text, isval, InVal, i, word, false).Word?
    ensures BarePieces(cs, isval, false) && Has(text, i, Spell(cs)) && i + |Spell(cs)| <= |text|
    ensures Stop(At(text, i + |Spell(cs)|), isval)
    decreases |text| - i
  {
    hide Has, Gv, BarePieces, BareChar, Stop, NulFree, Spell;
    if Stop(At(text, i), isval) {
      cs := [];
      Nothing(text, i);
      NoPieces(isval);
    } else {
      BareStep(text, isval, i, word);
      One(text, i);
      var x := if text[i] == BACKSLASH then Slashed(text[i + 1]) else Plain(text[i]);
      var rest := BareRest(text, isval, i + |PieceText(x)|, word + [x.c]);
      cs := [x] + rest;
      PlainNotNul(x, isval);
      BareFirst(x, rest, isval, false);
      Join(text, i, PieceText(x), Spell(rest));
    }
  }

  lemma {:induction false} PlainNotNul(x: Piece, isval: bool)
    ensures BareChar(x.c, isval, false) ==> x.c != 0
  {
  }

  lemma {:induction false} NoPieces(isval: bool)
    ensures BarePieces([], isval, false) && Spell([]) == []
  {
  }

  lemma {:induction false} Nothing(text: str, i: nat)
    requires i <= |text|
    ensures Has(text, i, [])
  {
  }

  lemma {:induction false} QuotedFirst(x: Piece, cs: seq<Piece>)
    requires x.c != 0 && (x.Plain? ==> x.c != QUOTE && x.c != BACKSLASH) && QuotedPieces(cs)
    ensures QuotedPieces([x] + cs) && Spell([x] + cs) + [QUOTE] == PieceText(x) + (Spell(cs) + [QUOTE])
  {
    assert ([x] + cs)[1..] == cs;
  }

  /** The pieces up to the closing quote. */
  lemma {:induction false} QuotedRest(text: str, isval: bool, i: nat, word: str) returns (cs: seq<Piece>)
    requires NulFree(text) && 1 <= i <= |text| && Gv(text, isval, InEscVal, i, word, true).Word?
    ensures QuotedPieces(cs) && Has(text, i, Spell(cs) + [QUOTE])
    decreases |text| - i
  {
    hide Has;
    One(text, i);
    if text[i] == QUOTE {
      cs := [];
      assert Spell(cs) + [QUOTE] == [QUOTE];
    } else if text[i] == BACKSLASH {
      var rest := QuotedRest(text, isval, i + 2, word + [text[i + 1]]);
      cs := [Slashed(text[i + 1])] + rest;
      QuotedFirst(Slashed(text[i + 1]), rest);
      Join(text, i, [BACKSLASH, text[i + 1]], Spell(rest) + [QUOTE]);
    } else {
      var rest := QuotedRest(text, isval, i + 1, word + [text[i]]);
      cs := [Plain(text[i])] + rest;
      QuotedFirst(Plain(text[i]), rest);
      Join(text, i, [text[i]], Spell(rest) + [QUOTE]);
    }
  }

  /** A word that was read, without the blanks before it. */
  lemma {:induction false} LexemeRead(text: str, isval: bool, i: nat) returns (w: Lexeme)
    requires NulFree(text) && i <= |text| && !IsSpace(At(text, i)) && Gv(text, isval, WaitVal, i, [], false).Word?
    ensures ProperLexeme(w, isval) && Has(text, i, LexemeText(w))
    ensures w.Bare? ==> Stop(At(text, i + |LexemeText(w)|), isval)
  {
    hide Has, Spell, BarePieces, QuotedPieces;
    One(text, i);
    if text[i] == QUOTE {
      var cs := QuotedRest(text, isval, i + 1, []);
      Join(text, i, [QUOTE], Spell(cs) + [QUOTE]);
      w := InQuotes(cs);
    } else {
      var x := if text[i] == BACKSLASH then Slashed(text[i + 1]) else Plain(text[i]);
      var j := i + |PieceText(x)|;
      var rest := BareRest(text, isval, j, [] + [x.c]);
      BareFirst(x, rest, isval, true);
      Join(text, i, PieceText(x), Spell(rest));
      w := Bare([x] + rest);
    }
  }

  /** Behind a key: blanks and the arrow. */
  lemma {:induction false} ArrowRead(text: str, i: nat, key: str, pairs: seq<Item>) returns (b: str)
    requires NulFree(text) && i <= |text| && Parse(text, WEq, i, key, pairs).Pairs?
    ensures Blank(b) && Has(text, i, b + [EQUALS, GREATER]) && i + |b| + 2 <= |text|
    ensures Parse(text, WEq, i, key, pairs) == Parse(text, WVal, i + |b| + 2, key, pairs)
  {
    hide Has;
    b := BlanksAt(text, i);
    ParseBlanks(text, WEq, i, b, key, pairs);
    var j := i + |b|;
    assert At(text, j) == EQUALS;
    assert Parse(text, WGt, j + 1, key, pairs).Pairs?;
    One(text, j);
    Join(text, i, b, [EQUALS, GREATER]);
    ParseArrow(text, j, key, pairs);
  }

  /** The parts of a pair, found one behind the other, make up its text. */
  lemma {:induction false} PairPlaced(text: str, i: nat, p: PairForm)
    requires Has(text, i, p.b0)
    requires var i1 := i + |p.b0|; Has(text, i1, LexemeText(p.key))
    requires var i2 := i + |p.b0| + |LexemeText(p.key)|; Has(text, i2, p.b1 + [EQUALS, GREATER])
    requires var i4 := i + |p.b0| + |LexemeText(p.key)| + |p.b1| + 2; Has(text, i4, p.b2) && Has(text, i4 + |p.b2|, LexemeText(p.val))
    requires var i6 := i + |p.b0| + |LexemeText(p.key)| + |p.b1| + 2 + |p.b2| + |LexemeText(p.val)|; Has(text, i6, p.b3)
    ensures Has(text, i, PairText(p))
  {
    hide Has, LexemeText;
    var k, v := LexemeText(p.key), LexemeText(p.val);
    var i2 := i + |p.b0| + |k|;
    var i4 := i2 + |p.b1| + 2;
    Join(text, i4 + |p.b2|, v, p.b3);
    Join(text, i4, p.b2, v + p.b3);
    Join(text, i2, p.b1 + [EQUALS, GREATER], p.b2 + (v + p.b3));
    assert (p.b1 + [EQUALS, GREATER]) + (p.b2 + (v + p.b3)) == p.b1 + ([EQUALS, GREATER] + (p.b2 + (v + p.b3)));
    Join(text, i + |p.b0|, k, p.b1 + ([EQUALS, GREATER] + (p.b2 + (v + p.b3))));
    Join(text, i, p.b0, k + (p.b1 + ([EQUALS, GREATER] + (p.b2 + (v + p.b3)))));
  }

  lemma {:induction false} KeyIsRead(text: str, i: nat, pairs: seq<Item>) returns (b: str, w: Lexeme)
    requires NulFree(text) && i <= |text| && Parse(text, WKey, i, [], pairs).Pairs?
    ensures Blank(b) && Has(text, i, b) && i + |b| <= |text|
    ensures i + |b| < |text| ==> ProperLexeme(w, false) && Has(text, i + |b|, LexemeText(w))
    ensures i + |b| < |text| ==> var j := i + |b| + |LexemeText(w)|;
      j <= |text| && Parse(text, WKey, i, [], pairs) == Parse(text, WEq, j, Letters(w.cs), pairs)
  {
    hide Has, ProperLexeme, LexemeText;
    b := BlanksAt(text, i);
    w := Bare([]);
    GvBlanks(text, false, i, b);
    if i + |b| < |text| {
      SomethingLeft(text, false, i + |b|);
      w := LexemeRead(text, false, i + |b|);
      ParseLexeme(text, i, b, w, pairs);
    }
  }

  /** Inside a word the end of the text is an error or ends the word. */
  lemma {:induction false} NeverEnds(text: str, isval: bool, st: GvState, i: nat, word: str, escaped: bool)
    requires 1 <= i <= |text| && st != WaitVal
    ensures !Gv(text, isval, st, i, word, escaped).End?
    decreases |text| - i
  {
    if i < |text| {
      var c := text[i];
      match st
      case InVal =>
        NeverEnds(text, isval, WaitEscIn, i + 1, word, escaped);
        NeverEnds(text, isval, InVal, i + 1, word + [c], escaped);
      case InEscVal =>
        NeverEnds(text, isval, WaitEscEscIn, i + 1, word, escaped);
        NeverEnds(text, isval, InEscVal, i + 1, word + [c], escaped);
      case WaitEscIn =>
        NeverEnds(text, isval, InVal, i + 1, word + [c], escaped);
      case WaitEscEscIn =>
        NeverEnds(text, isval, InEscVal, i + 1, word + [c], escaped);
    }
  }

  lemma {:induction false} SomethingLeft(text: str, isval: bool, i: nat)
    requires NulFree(text) && i < |text| && !IsSpace(text[i])
    ensures !Gv(text, isval, WaitVal, i, [], false).End?
  {
    NeverEnds(text, isval, InEscVal, i + 1, [], true);
    NeverEnds(text, isval, WaitEscIn, i + 1, [], false);
    NeverEnds(text, isval, InVal, i + 1, [] + [text[i]], false);
  }

  lemma {:induction false} ValueIsRead(text: str, i: nat, p0: PairForm, pairs: seq<Item>) returns (p: PairForm)
    requires NulFree(text) && i <= |text| && Parse(text, WVal, i, Letters(p0.key.cs), pairs).Pairs?
    ensures p.b0 == p0.b0 && p.key == p0.key && p.b1 == p0.b1
    ensures Blank(p.b2) && Has(text, i, p.b2) && ProperLexeme(p.val, true) && Has(text, i + |p.b2|, LexemeText(p.val))
    ensures var j := i + |p.b2| + |LexemeText(p.val)|;
      Blank(p.b3) && Has(text, j, p.b3) && j + |p.b3| <= |text| && (At(text, j + |p.b3|) == 0 || At(text, j + |p.b3|) == COMMA)
  {
    hide Has, ProperLexeme, LexemeText, Stands;
    var b := BlanksAt(text, i);
    GvBlanks(text, true, i, b);
    var w := LexemeRead(text, true, i + |b|);
    p := p0.(b2 := b, val := w);
    ParseValue(text, i, p, pairs);
    var j := i + |b| + |LexemeText(w)|;
    var c := BlanksAt(text, j);
    ParseBlanks(text, WDel, j, c, [], pairs + [Stands(p)]);
    p := p.(b3 := c);
  }

  /** A pair that was read, up to a comma or the end. */
  lemma {:induction false} PairIsRead(text: str, i: nat, b: str, w: Lexeme, pairs: seq<Item>) returns (p: PairForm)
    requires NulFree(text) && i <= |text| && Parse(text, WKey, i, [], pairs).Pairs?
    requires Blank(b) && Has(text, i, b) && ProperLexeme(w, false) && Has(text, i + |b|, LexemeText(w))
    requires var j := i + |b| + |LexemeText(w)|;
      j <= |text| && Parse(text, WKey, i, [], pairs) == Parse(text, WEq, j, Letters(w.cs), pairs)
    ensures ProperPair(p) && Has(text, i, PairText(p))
    ensures var j := i + |PairText(p)|; j <= |text| && (At(text, j) == 0 || At(text, j) == COMMA)
  {
    hide Has, ProperLexeme, LexemeText, Parse, Blank, At;
    var b1 := ArrowRead(text, i + |b| + |LexemeText(w)|, Letters(w.cs), pairs);
    p := PairForm(b, w, b1, [], w, []);
    p := ValueIsRead(text, i + |b| + |LexemeText(w)| + |b1| + 2, p, pairs);
    PairPlaced(text, i, p);
    PairLength(p);
  }

  /** The derivation of the rest of a text that was read. */
  lemma {:induction false} SourceIsRead(text: str, i: nat, pairs: seq<Item>) returns (s: Source)
    requires NulFree(text) && i <= |text| && Parse(text, WKey, i, [], pairs).Pairs?
    ensures ProperSource(s) && Has(text, i, SourceText(s)) && i + |SourceText(s)| == |text|
    decreases |text| - i
  {
    hide Has, ProperLexeme, LexemeText, PairText, Parse, Stands, ProperPair, Blank;
    var b, w := KeyIsRead(text, i, pairs);
    if i + |b| == |text| {
      s := Empty(b);
    } else {
      var p := PairIsRead(text, i, b, w, pairs);
      var j := i + |PairText(p)|;
      ParsePair(text, i, p, pairs);
      ParseDelimiter(text, j, pairs + [Stands(p)]);
      PairLonger(p);
      if j == |text| {
        s := Last(p);
      } else {
        var rest := SourceIsRead(text, j + 1, pairs + [Stands(p)]);
        One(text, j);
        Join(text, j, [COMMA], SourceText(rest));
        Join(text, i, PairText(p), [COMMA] + SourceText(rest));
        s := More(p, rest);
      }
    }
  }

  lemma {:induction false} PairLonger(p: PairForm)
    ensures |PairText(p)| >= 2
  {
    PairLength(p);
  }

  // ---- The language -------------------------------------------------------

  lemma {:induction false} Whole(text: str)
    ensures Has(text, 0, text) && forall s :: Has(text, 0, s) && |s| == |text| ==> s == text
  {
    assert text[0..0 + |text|] == text;
  }

  /** parse_hstore accepts exactly the derivable texts. */
  lemma {:induction false} AcceptedExactly(text: str)
    requires NulFree(text)
    ensures Parse(text, WKey, 0, [], []).Pairs? <==> exists s :: Derives(s, text)
  {
    hide Parse, Has, ProperSource, SourceText;
    Whole(text);
    if Parse(text, WKey, 0, [], []).Pairs? {
      var s := SourceIsRead(text, 0, []);
      assert Derives(s, text);
    }
    if s :| Derives(s, text) {
      ParseSource(text, 0, s, []);
    }
  }

  /** And the pairs it gives are those that any derivation stands for. */
  lemma {:induction false} ParsedIsStood(text: str, s: Source)
    requires Derives(s, text)
    ensures Parse(text, WKey, 0, [], []) == Pairs(StandsFor(s))
  {
    hide Parse, Has, ProperSource, SourceText;
    Whole(text);
    ParseSource(text, 0, s, []);
    assert [] + StandsFor(s) == StandsFor(s);
  }

  // ---- Plain words --------------------------------------------------------

  /** A word that needs neither quotes nor backslashes. */
  ghost predicate PlainWord(w: str) {
    && w != [] && Storable(w)
    && forall k :: 0 <= k < |w| ==> !IsSpace(w[k]) && w[k] != QUOTE && w[k] != BACKSLASH && w[k] != EQUALS && w[k] != COMMA
  }

  /** k=>v,k=>v. */
  function PlainText(ps: seq<(str, str)>): str {
    if ps == [] then []
    else ps[0].0 + [EQUALS, GREATER] + ps[0].1 + if |ps| == 1 then [] else [COMMA] + PlainText(ps[1..])
  }

  /** The words in pairs, a value null when it is the word null in any case. */
  function PlainItems(ps: seq<(str, str)>): (items: seq<Item>)
    ensures |items| == |ps|
  {
    seq(|ps|, i requires 0 <= i < |ps| => Item(ps[i].0, if SaysNull(ps[i].1) then None else Some(ps[i].1)))
  }

  function Plainly(w: str): (cs: seq<Piece>)
    ensures |cs| == |w|
  {
    seq(|w|, k requires 0 <= k < |w| => Plain(w[k]))
  }

  lemma {:induction false} PlainlySpelled(w: str)
    ensures Spell(Plainly(w)) == w && Letters(Plainly(w)) == w
  {
    if w != [] {
      PlainlySpelled(w[1..]);
      assert Plainly(w)[1..] == Plainly(w[1..]);
      assert w == [w[0]] + w[1..];
    }
    assert Letters(Plainly(w)) == w;
  }

  lemma {:induction false} PlainlyProper(w: str, isval: bool)
    requires PlainWord(w)
    ensures ProperLexeme(Bare(Plainly(w)), isval)
  {
  }

  function PlainPair(p: (str, str)): PairForm { PairForm([], Bare(Plainly(p.0)), [], [], Bare(Plainly(p.1)), []) }

  lemma {:induction false} PlainPairIs(p: (str, str))
    requires PlainWord(p.0) && PlainWord(p.1)
    ensures ProperPair(PlainPair(p)) && PairText(PlainPair(p)) == p.0 + [EQUALS, GREATER] + p.1
    ensures Stands(PlainPair(p)) == Item(p.0, if SaysNull(p.1) then None else Some(p.1))
  {
    hide ProperLexeme, PlainWord, SaysNull;
    PlainlyProper(p.0, false);
    PlainlyProper(p.1, true);
    PlainlySpelled(p.0);
    PlainlySpelled(p.1);
    WordStorable(p.0);
    WordStorable(p.1);
    TruncStored(p.0);
    TruncStored(p.1);
    Pieced(p.0, p.1);
  }

  lemma {:induction false} WordStorable(w: str)
    requires PlainWord(w)
    ensures |w| < LENGTHS
  {
  }

  lemma {:induction false} Pieced(k: str, v: str)
    ensures [] + (k + ([] + ([EQUALS, GREATER] + ([] + (v + []))))) == k + [EQUALS, GREATER] + v
  {
  }

  lemma {:induction false} PlainSource(ps: seq<(str, str)>) returns (s: Source)
    requires forall i :: 0 <= i < |ps| ==> PlainWord(ps[i].0) && PlainWord(ps[i].1)
    ensures Derives(s, PlainText(ps)) && StandsFor(s) == PlainItems(ps)
  {
    hide PlainWord, ProperPair, PairText, Stands;
    if ps == [] {
      s := Empty([]);
      assert Blank([]);
    } else {
      var p, rest := ps[0], ps[1..];
      PlainPairIs(p);
      assert [Stands(PlainPair(p))] + PlainItems(rest) == PlainItems(ps);
      if |ps| == 1 {
        s := Last(PlainPair(p));
        assert PlainItems(rest) == [];
        assert p.0 + [EQUALS, GREATER] + p.1 + [] == p.0 + [EQUALS, GREATER] + p.1;
      } else {
        var t := PlainSource(rest);
        s := More(PlainPair(p), t);
      }
    }
  }

  /** Plain words are read as they stand, in their order. */
  lemma {:induction false} PlainRead(ps: seq<(str, str)>)
    requires forall i :: 0 <= i < |ps| ==> PlainWord(ps[i].0) && PlainWord(ps[i].1)
    ensures Parse(PlainText(ps), WKey, 0, [], []) == Pairs(PlainItems(ps))
  {
    var s := PlainSource(ps);
    ParsedIsStood(PlainText(ps), s);
  }
}

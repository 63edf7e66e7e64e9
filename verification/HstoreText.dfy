/** hstore's text form: the printer, the two-level state machine that reads it, and why reading undoes printing. */
module HstoreText {
  import opened HstoreData
  import opened Texts
  import Bytes

  const QUOTE: Bytes.byte := 34
  const COMMA: Bytes.byte := 44
  const EQUALS: Bytes.byte := 61
  const GREATER: Bytes.byte := 62
  const BACKSLASH: Bytes.byte := 92
  const SPACE: Bytes.byte := 32

  /** The four letters N, U, L, L. */
  const NULL: str := [78, 85, 76, 76]

  // ---- Printing -----------------------------------------------------------

  function Escape(s: str): str {
    if s == [] then []
    else (if s[0] == QUOTE || s[0] == BACKSLASH then [BACKSLASH, s[0]] else [s[0]]) + Escape(s[1..])
  }

  function Quoted(s: str): str { [QUOTE] + Escape(s) + [QUOTE] }

  function PrintValue(v: Option<str>): str { if v.None? then NULL else Quoted(v.value) }

  function PrintItem(it: Item): str { Quoted(it.key) + [EQUALS, GREATER] + PrintValue(it.val) }

  /** The text of a list of items. */
  function Print(items: seq<Item>): str {
    if items == [] then []
    else PrintItem(items[0]) + (if |items| == 1 then [] else [COMMA, SPACE] + Print(items[1..]))
  }

  /** cpw: copies src behind dst, escaping quotes and backslashes. */
  method Cpw(dst: str, src: str) returns (r: str)
    ensures r == dst + Escape(src)
  {
    r := dst;
    var ptr := 0;
    assert src[0..] == src;
    while ptr < |src|
      invariant 0 <= ptr <= |src| && r + Escape(src[ptr..]) == dst + Escape(src)
    {
      assert src[ptr..][1..] == src[ptr + 1..];
      if src[ptr] == QUOTE || src[ptr] == BACKSLASH {
        r := r + [BACKSLASH];
      }
      r := r + [src[ptr]];
      ptr := ptr + 1;
    }
  }

  /** A quoted word behind a text. */
  method PutQuoted(text: str, w: str) returns (r: str)
    ensures r == text + Quoted(w)
  {
    hide Escape;
    r := text + [QUOTE];
    r := Cpw(r, w);
    r := r + [QUOTE];
    assert ((text + [QUOTE]) + Escape(w)) + [QUOTE] == text + ([QUOTE] + Escape(w) + [QUOTE]);
  }

  /** The part of hstore_out for one entry. */
  method OutEntry(text: str, h: HStore, e: HEntry) returns (r: str)
    requires e.pos + EntrySize(e) <= |h.data|
    ensures r == text + PrintItem(ItemAt(h, e))
  {
    hide Quoted, NULL;
    ghost var k, v := Quoted(ItemAt(h, e).key), PrintValue(ItemAt(h, e).val);
    r := PutQuoted(text, h.data[e.pos..e.pos + e.keylen]);
    r := r + [EQUALS];
    r := r + [GREATER];
    if e.valisnull {
      r := r + NULL;
    } else {
      r := PutQuoted(r, h.data[e.pos + e.keylen..e.pos + e.keylen + e.vallen]);
    }
    assert r == (((text + k) + [EQUALS]) + [GREATER]) + v;
    Rejoined(text, k, v);
  }

  lemma {:induction false} Rejoined(text: str, k: str, v: str)
    ensures (((text + k) + [EQUALS]) + [GREATER]) + v == text + (k + [EQUALS, GREATER] + v)
  {
  }

  /** hstore_out. */
  method Out(h: HStore) returns (text: str)
    requires InBounds(h)
    ensures text == Print(ItemsOf(h))
  {
    hide PrintItem, ItemAt;
    ghost var items := ItemsOf(h);
    text := [];
    assert items[0..] == items;
    for i := 0 to |h.entries|
      invariant text + Print(items[i..]) == Print(items)
    {
      assert items[i..][1..] == items[i + 1..];
      text := OutEntry(text, h, h.entries[i]);
      if i + 1 != |h.entries| {
        text := text + [COMMA];
        text := text + [SPACE];
      }
    }
  }

  // ---- get_val ------------------------------------------------------------

  /** The character at a position of a C string; the terminator follows the last. */
  function At(text: str, i: nat): Bytes.byte { if i < |text| then text[i] else 0 }

  function IsSpace(c: Bytes.byte): bool { c == SPACE || 9 <= c <= 13 }

  datatype GvState = WaitVal | InVal | InEscVal | WaitEscIn | WaitEscEscIn

  /** A word and the place of its last character, the end of the text, or an error. */
  datatype GvResult = Word(word: str, escaped: bool, ptr: nat) | End | Bad(at: nat)

  /** get_val's automaton from state st at position i, with the word read so far. */
  function Gv(text: str, ignoreeq: bool, st: GvState, i: nat, word: str, escaped: bool): (r: GvResult)
    requires i <= |text| && (st != WaitVal ==> i >= 1)
    ensures r.Word? ==> (if st == WaitVal then i else i - 1) <= r.ptr < |text|
    decreases |text| - i
  {
    var c := At(text, i);
    match st
    case WaitVal =>
      if c == QUOTE then Gv(text, ignoreeq, InEscVal, i + 1, word, true)
      else if c == 0 then End
      else if c == EQUALS && !ignoreeq then Bad(i)
      else if c == BACKSLASH then Gv(text, ignoreeq, WaitEscIn, i + 1, word, escaped)
      else if !IsSpace(c) then Gv(text, ignoreeq, InVal, i + 1, word + [c], escaped)
      else Gv(text, ignoreeq, WaitVal, i + 1, word, escaped)
    case InVal =>
      if c == BACKSLASH then Gv(text, ignoreeq, WaitEscIn, i + 1, word, escaped)
      else if c == EQUALS && !ignoreeq then Word(word, escaped, i - 1)
      else if c == COMMA && ignoreeq then Word(word, escaped, i - 1)
      else if IsSpace(c) then Word(word, escaped, i)
      else if c == 0 then Word(word, escaped, i - 1)
      else Gv(text, ignoreeq, InVal, i + 1, word + [c], escaped)
    case InEscVal =>
      if c == BACKSLASH then Gv(text, ignoreeq, WaitEscEscIn, i + 1, word, escaped)
      else if c == QUOTE then Word(word, escaped, i)
      else if c == 0 then Bad(i)
      else Gv(text, ignoreeq, InEscVal, i + 1, word + [c], escaped)
    case WaitEscIn =>
      if c == 0 then Bad(i) else Gv(text, ignoreeq, InVal, i + 1, word + [c], escaped)
    case WaitEscEscIn =>
      if c == 0 then Bad(i) else Gv(text, ignoreeq, InEscVal, i + 1, word + [c], escaped)
  }

  // ---- parse_hstore -------------------------------------------------------

  datatype PState = WKey | WEq | WGt | WVal | WDel

  datatype PResult = Pairs(pairs: seq<Item>) | SyntaxError(at: nat)

  function Lower(c: Bytes.byte): Bytes.byte { if 65 <= c <= 90 then c + 32 else c }

  /** pg_strcasecmp(w, "null") == 0. */
  function IsNullWord(w: str): bool {
    |w| == 4 && Lower(w[0]) == 110 && Lower(w[1]) == 117 && Lower(w[2]) == 108 && Lower(w[3]) == 108
  }

  /** A length stored in 16 bits. */
  function Trunc16(s: str): str { s[..|s| % LENGTHS] }

  function MakePair(key: str, w: str, escaped: bool): Item {
    Item(Trunc16(key), if |w| == 4 && !escaped && IsNullWord(w) then None else Some(Trunc16(w)))
  }

  /** parse_hstore's automaton from state st at position i. */
  function Parse(text: str, st: PState, i: nat, key: str, pairs: seq<Item>): PResult
    requires i <= |text|
    decreases |text| - i
  {
    var c := At(text, i);
    match st
    case WKey =>
      var r := Gv(text, false, WaitVal, i, [], false);
      if r.End? then Pairs(pairs)
      else if r.Bad? then SyntaxError(r.at)
      else Parse(text, WEq, r.ptr + 1, r.word, pairs)
    case WEq =>
      if c == EQUALS then Parse(text, WGt, i + 1, key, pairs)
      else if c == 0 || !IsSpace(c) then SyntaxError(i)
      else Parse(text, WEq, i + 1, key, pairs)
    case WGt =>
      if c == GREATER then Parse(text, WVal, i + 1, key, pairs) else SyntaxError(i)
    case WVal =>
      var r := Gv(text, true, WaitVal, i, [], false);
      if r.End? then SyntaxError(|text|)
      else if r.Bad? then SyntaxError(r.at)
      else Parse(text, WDel, r.ptr + 1, [], pairs + [MakePair(key, r.word, r.escaped)])
    case WDel =>
      if c == COMMA then Parse(text, WKey, i + 1, [], pairs)
      else if c == 0 then Pairs(pairs)
      else if !IsSpace(c) then SyntaxError(i)
      else Parse(text, WDel, i + 1, [], pairs)
  }

  // ---- Reading what was printed -------------------------------------------

  lemma {:induction false} HasFirst(text: str, i: nat, c: Bytes.byte)
    requires Has(text, i, [c])
    ensures At(text, i) == c && i < |text|
  {
    assert text[i..i + 1][0] == c;
  }

  /** One escaped character inside quotes. */
  lemma {:induction false} GvEscapedChar(text: str, ig: bool, i: nat, c: Bytes.byte, word: str)
    requires c != 0 && i >= 1 && Has(text, i, Escape([c]))
    ensures i + |Escape([c])| <= |text|
    ensures Gv(text, ig, InEscVal, i, word, true) == Gv(text, ig, InEscVal, i + |Escape([c])|, word + [c], true)
  {
    assert [c][1..] == [];
    if c == QUOTE || c == BACKSLASH {
      assert Escape([c]) == [BACKSLASH, c];
      assert text[i..i + 2][0] == BACKSLASH && text[i..i + 2][1] == c;
    } else {
      assert Escape([c]) == [c];
      HasFirst(text, i, c);
    }
  }

  lemma {:induction false} GvClosed(text: str, ig: bool, i: nat, word: str)
    requires i >= 1 && Has(text, i, [QUOTE])
    ensures i < |text| && Gv(text, ig, InEscVal, i, word, true) == Word(word, true, i)
  {
    HasFirst(text, i, QUOTE);
  }

  lemma {:induction false} EscapeFirst(w: str)
    requires w != []
    ensures Escape(w) == Escape([w[0]]) + Escape(w[1..])
  {
    assert [w[0]][1..] == [];
  }

  /** Inside quotes an escaped word is read back as it was. */
  lemma {:induction false} GvEscaped(text: str, ig: bool, i: nat, w: str, word: str)
    requires NulFree(w) && i >= 1 && Has(text, i, Escape(w) + [QUOTE])
    ensures i <= |text| && Gv(text, ig, InEscVal, i, word, true) == Word(word + w, true, i + |Escape(w)|)
    decreases |w|
  {
    hide Gv, Has, Escape;
    if w == [] {
      assert word + w == word;
      EscapeNone();
      assert Escape(w) + [QUOTE] == [QUOTE];
      GvClosed(text, ig, i, word);
    } else {
      var c, rest := w[0], w[1..];
      EscapeFirst(w);
      var head, tail := Escape([c]), Escape(rest) + [QUOTE];
      assert word + w == (word + [c]) + rest;
      assert Escape(w) + [QUOTE] == head + tail;
      HasSplit(text, i, head, tail);
      GvEscapedChar(text, ig, i, c, word);
      GvEscaped(text, ig, i + |head|, rest, word + [c]);
    }
  }

  function Specials(w: str): nat {
    if w == [] then 0 else (if w[0] == QUOTE || w[0] == BACKSLASH then 1 else 0) + Specials(w[1..])
  }

  /** Escaping adds one backslash for every quote and backslash, in front of it, and changes nothing else. */
  lemma {:induction false} EscapeOnly(w: str)
    ensures |Escape(w)| == |w| + Specials(w)
    ensures Specials(w) == 0 <==> Escape(w) == w
    ensures Specials(w) == 0 <==> QUOTE !in w && BACKSLASH !in w
  {
    if w != [] {
      EscapeOnly(w[1..]);
      assert w == [w[0]] + w[1..];
    }
  }

  lemma {:induction false} EscapeNone()
    ensures Escape([]) == []
  {
  }

  /** A quoted word is read back as it was, and marked as quoted. */
  lemma {:induction false} GvQuoted(text: str, ig: bool, i: nat, w: str)
    requires NulFree(w) && Has(text, i, Quoted(w))
    ensures i <= |text| && Gv(text, ig, WaitVal, i, [], false) == Word(w, true, i + |Quoted(w)| - 1)
  {
    assert Quoted(w) == [QUOTE] + (Escape(w) + [QUOTE]);
    HasSplit(text, i, [QUOTE], Escape(w) + [QUOTE]);
    HasFirst(text, i, QUOTE);
    GvEscaped(text, ig, i + 1, w, []);
    assert [] + w == w;
  }

  /** An unquoted NULL ends before a comma or the end. */
  lemma {:induction false} GvNull(text: str, i: nat)
    requires Has(text, i, NULL) && (At(text, i + 4) == COMMA || At(text, i + 4) == 0)
    ensures i <= |text| && Gv(text, true, WaitVal, i, [], false) == Word(NULL, false, i + 3)
  {
    assert forall k :: 0 <= k < 4 ==> text[i..i + 4][k] == NULL[k];
    assert At(text, i) == 78 && At(text, i + 1) == 85 && At(text, i + 2) == 76 && At(text, i + 3) == 76;
    var w1, w2, w3, w4: str := [78], [78, 85], [78, 85, 76], NULL;
    assert [] + [78] == w1 && w1 + [85] == w2 && w2 + [76] == w3 && w3 + [76] == w4;
    GvLetter(text, i + 1, w1);
    GvLetter(text, i + 2, w2);
    GvLetter(text, i + 3, w3);
  }

  lemma {:induction false} GvLetter(text: str, i: nat, word: str)
    requires 1 <= i < |text| && 65 <= text[i] <= 90
    ensures Gv(text, true, InVal, i, word, false) == Gv(text, true, InVal, i + 1, word + [text[i]], false)
  {
  }

  /** A printed value is read back, a quoted one never as null. */
  lemma {:induction false} ReadValue(text: str, i: nat, key: str, v: Option<str>, pairs: seq<Item>)
    requires Has(text, i, PrintValue(v)) && StorableItem(Item(key, v))
    requires var e := i + |PrintValue(v)|; At(text, e) == COMMA || At(text, e) == 0
    ensures i <= |text| &&
      Parse(text, WVal, i, key, pairs) == Parse(text, WDel, i + |PrintValue(v)|, [], pairs + [Item(key, v)])
  {
    hide Gv, Escape;
    TruncStored(key);
    if v.None? {
      GvNull(text, i);
      assert IsNullWord(NULL);
    } else {
      GvQuoted(text, true, i, v.value);
      TruncStored(v.value);
    }
  }

  lemma {:induction false} TruncStored(s: str)
    requires |s| < LENGTHS
    ensures Trunc16(s) == s
  {
    assert s[..|s|] == s;
  }

  /** A printed item is read back. */
  lemma {:induction false} ReadItemText(text: str, i: nat, it: Item, pairs: seq<Item>)
    requires Has(text, i, PrintItem(it)) && StorableItem(it)
    requires var e := i + |PrintItem(it)|; At(text, e) == COMMA || At(text, e) == 0
    ensures i + |PrintItem(it)| <= |text| &&
      Parse(text, WKey, i, [], pairs) == Parse(text, WDel, i + |PrintItem(it)|, [], pairs + [it])
  {
    hide Gv, Quoted, PrintValue, Has, Parse, At;
    var q, v := Quoted(it.key), PrintValue(it.val);
    assert PrintItem(it) == q + ([EQUALS, GREATER] + v);
    HasSplit(text, i, q, [EQUALS, GREATER] + v);
    HasArrow(text, i + |q|, v);
    GvQuoted(text, false, i, it.key);
    ParseKey(text, i, it.key, pairs);
    ReadValue(text, i + |q| + 2, it.key, it.val, pairs);
  }

  lemma {:induction false} HasArrow(text: str, i: nat, v: str)
    requires Has(text, i, [EQUALS, GREATER] + v)
    ensures i + 1 < |text| && text[i] == EQUALS && text[i + 1] == GREATER && Has(text, i + 2, v) && i + 2 + |v| <= |text|
  {
    HasSplit(text, i, [EQUALS, GREATER], v);
    assert text[i..i + 2][0] == EQUALS && text[i..i + 2][1] == GREATER;
  }

  lemma {:induction false} ParseKey(text: str, i: nat, key: str, pairs: seq<Item>)
    requires var q := i + |Quoted(key)|; q + 1 < |text| && text[q] == EQUALS && text[q + 1] == GREATER
    requires Gv(text, false, WaitVal, i, [], false) == Word(key, true, i + |Quoted(key)| - 1)
    ensures Parse(text, WKey, i, [], pairs) == Parse(text, WVal, i + |Quoted(key)| + 2, key, pairs)
  {
    hide Gv, Quoted;
    var q := i + |Quoted(key)|;
    assert Parse(text, WEq, q, key, pairs) == Parse(text, WGt, q + 1, key, pairs);
  }

  lemma {:induction false} SkipSpace(text: str, i: nat, pairs: seq<Item>)
    requires i < |text| && text[i] == SPACE
    ensures Parse(text, WKey, i, [], pairs) == Parse(text, WKey, i + 1, [], pairs)
  {
    assert Gv(text, false, WaitVal, i, [], false) == Gv(text, false, WaitVal, i + 1, [], false);
  }

  lemma {:induction false} SuffixSplit(text: str, i: nat, s: str, t: str)
    requires i <= |text| && text[i..] == s + t
    ensures Has(text, i, s) && text[i + |s|..] == t
  {
    var u := text[i..];
    assert text[i..i + |s|] == u[..|s|] == s;
    assert text[i + |s|..] == u[|s|..] == t;
  }

  lemma {:induction false} AtEnd(text: str, i: nat)
    requires i <= |text| && text[i..] == []
    ensures i == |text| && At(text, i) == 0
  {
  }

  /** Behind an item: the end, or a comma, a blank and the other items. */
  lemma {:induction false} BehindItem(text: str, e: nat, rest: seq<Item>)
    requires e <= |text| && text[e..] == (if rest == [] then [] else [COMMA, SPACE] + Print(rest))
    ensures rest == [] ==> At(text, e) == 0
    ensures rest != [] ==>
      At(text, e) == COMMA && e + 2 <= |text| && text[e] == COMMA && text[e + 1] == SPACE && text[e + 2..] == Print(rest)
  {
    if rest == [] {
      AtEnd(text, e);
    } else {
      SuffixSplit(text, e, [COMMA, SPACE], Print(rest));
      assert text[e..e + 2][0] == COMMA && text[e..e + 2][1] == SPACE;
    }
  }

  lemma {:induction false} ParseDelimiter(text: str, e: nat, pairs: seq<Item>)
    requires e <= |text|
    ensures At(text, e) == 0 ==> Parse(text, WDel, e, [], pairs) == Pairs(pairs)
    ensures At(text, e) == COMMA ==> e < |text| && Parse(text, WDel, e, [], pairs) == Parse(text, WKey, e + 1, [], pairs)
  {
  }

  /** Printed items are read back from any place, behind whatever was read before. */
  lemma {:induction false} ReadItems(text: str, i: nat, items: seq<Item>, pairs: seq<Item>)
    requires i <= |text| && text[i..] == Print(items) && AllStorable(items)
    ensures Parse(text, WKey, i, [], pairs) == Pairs(pairs + items)
    decreases |items|
  {
    hide Gv, PrintItem, Has, At, Parse, StorableItem;
    if items == [] {
      assert pairs + items == pairs;
      NothingLeft(text, i, pairs);
    } else {
      var it, rest := items[0], items[1..];
      var e := i + |PrintItem(it)|;
      SuffixSplit(text, i, PrintItem(it), if rest == [] then [] else [COMMA, SPACE] + Print(rest));
      assert pairs + items == (pairs + [it]) + rest;
      ItemInside(text, i, it);
      BehindItem(text, e, rest);
      ReadItemText(text, i, it, pairs);
      ParseDelimiter(text, e, pairs + [it]);
      if rest == [] {
        assert (pairs + [it]) + rest == pairs + [it];
      } else {
        SkipSpace(text, e + 1, pairs + [it]);
        ReadItems(text, e + 2, rest, pairs + [it]);
      }
    }
  }

  lemma {:induction false} ItemInside(text: str, i: nat, it: Item)
    requires Has(text, i, PrintItem(it))
    ensures i + |PrintItem(it)| <= |text|
  {
  }

  lemma {:induction false} NothingLeft(text: str, i: nat, pairs: seq<Item>)
    requires i <= |text| && text[i..] == []
    ensures Parse(text, WKey, i, [], pairs) == Pairs(pairs)
  {
    NothingToRead(text, i);
  }

  lemma {:induction false} NothingToRead(text: str, i: nat)
    requires i == |text|
    ensures Gv(text, false, WaitVal, i, [], false) == End
  {
  }

  /** Parsing the text of any items gives these items in their order. */
  lemma {:induction false} ParsePrint(items: seq<Item>)
    requires AllStorable(items)
    ensures Parse(Print(items), WKey, 0, [], []) == Pairs(items)
  {
    var text := Print(items);
    assert text[0..] == text && [] + items == items;
    ReadItems(text, 0, items, []);
  }
}

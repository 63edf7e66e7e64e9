/** hstore_in: the parser object, sorting out duplicate keys, and packing the store. */
module HstoreIn {
  import opened HstoreData
  import opened HstoreText
  import HstoreOps
  import HstoreGrammar

  /** How get_val ends: with a word in the buffer, at the end of the text, or by raising an error. */
  datatype Outcome = Got(escaped: bool) | Nothing | Failed(at: nat)

  class HSParser {
    const begin: str
    var ptr: nat
    var word: str
    var pairs: seq<Item>

    constructor (text: str)
      ensures begin == text && ptr == 0 && pairs == []
    {
      begin, ptr, word, pairs := text, 0, [], [];
    }

    /** get_val. */
    method GetVal(ignoreeq: bool) returns (o: Outcome)
      requires ptr <= |begin|
      modifies this`ptr, this`word
      ensures var r := Gv(begin, ignoreeq, WaitVal, old(ptr), [], false);
        && (r.Word? <==> o.Got?) && (r.End? <==> o.Nothing?)
        && (r.Word? ==> o.escaped == r.escaped && word == r.word && ptr == r.ptr)
        && (r.Bad? ==> o == Failed(r.at))
    {
      hide Lower;
      var st := WaitVal;
      word := [];
      var escaped := false;
      ghost var r := Gv(begin, ignoreeq, WaitVal, ptr, [], false);
      while true
        invariant ptr <= |begin| && (st != WaitVal ==> ptr >= 1)
        invariant Gv(begin, ignoreeq, st, ptr, word, escaped) == r
        decreases |begin| - ptr
      {
        var c := At(begin, ptr);
        if st == WaitVal {
          if c == QUOTE {
            escaped := true;
            st := InEscVal;
          } else if c == 0 {
            return Nothing;
          } else if c == EQUALS && !ignoreeq {
            return Failed(ptr);
          } else if c == BACKSLASH {
            st := WaitEscIn;
          } else if !IsSpace(c) {
            word := word + [c];
            st := InVal;
          }
        } else if st == InVal {
          if c == BACKSLASH {
            st := WaitEscIn;
          } else if c == EQUALS && !ignoreeq {
            ptr := ptr - 1;
            return Got(escaped);
          } else if c == COMMA && ignoreeq {
            ptr := ptr - 1;
            return Got(escaped);
          } else if IsSpace(c) {
            return Got(escaped);
          } else if c == 0 {
            ptr := ptr - 1;
            return Got(escaped);
          } else {
            word := word + [c];
          }
        } else if st == InEscVal {
          if c == BACKSLASH {
            st := WaitEscEscIn;
          } else if c == QUOTE {
            return Got(escaped);
          } else if c == 0 {
            return Failed(ptr);
          } else {
            word := word + [c];
          }
        } else if st == WaitEscIn {
          if c == 0 {
            return Failed(ptr);
          }
          word := word + [c];
          st := InVal;
        } else {
          if c == 0 {
            return Failed(ptr);
          }
          word := word + [c];
          st := InEscVal;
        }
        ptr := ptr + 1;
      }
    }

    /** parse_hstore; an error raised in the source is returned with its position. */
    method ParseHstore() returns (err: Option<nat>)
      requires ptr == 0 && pairs == []
      modifies this
      ensures match Parse(begin, WKey, 0, [], [])
        case Pairs(ps) => err == None && pairs == ps
        case SyntaxError(at) => err == Some(at)
    {
      hide Gv, MakePair;
      var st := WKey;
      var key: str := [];
      ghost var r := Parse(begin, WKey, 0, [], []);
      while true
        invariant ptr <= |begin| && Parse(begin, st, ptr, key, pairs) == r
        invariant st == WKey || st == WDel ==> key == []
        decreases |begin| - ptr
      {
        var c := At(begin, ptr);
        if st == WKey {
          var o := GetVal(false);
          if o.Nothing? {
            return None;
          } else if o.Failed? {
            return Some(o.at);
          }
          key := word;
          st := WEq;
        } else if st == WEq {
          if c == EQUALS {
            st := WGt;
          } else if c == 0 {
            return Some(ptr);
          } else if !IsSpace(c) {
            return Some(ptr);
          }
        } else if st == WGt {
          if c == GREATER {
            st := WVal;
          } else {
            return Some(ptr);
          }
        } else if st == WVal {
          var o := GetVal(true);
          if o.Nothing? {
            return Some(|begin|);
          } else if o.Failed? {
            return Some(o.at);
          }
          pairs := pairs + [MakePair(key, word, o.escaped)];
          key := [];
          st := WDel;
        } else {
          if c == COMMA {
            st := WKey;
          } else if c == 0 {
            return None;
          } else if !IsSpace(c) {
            return Some(ptr);
          }
        }
        ptr := ptr + 1;
      }
    }
  }

  // ---- What the parser can produce ----------------------------------------

  lemma {:induction false} WordNulFree(text: str, ig: bool, st: GvState, i: nat, word: str, escaped: bool)
    requires i <= |text| && (st != WaitVal ==> i >= 1) && NulFree(word)
    ensures var r := Gv(text, ig, st, i, word, escaped); r.Word? ==> NulFree(r.word)
    decreases |text| - i
  {
    if i < |text| {
      var c := text[i];
      if c != 0 {
        WordNulFree(text, ig, InVal, i + 1, word + [c], escaped);
        WordNulFree(text, ig, InEscVal, i + 1, word + [c], escaped);
        WordNulFree(text, ig, InEscVal, i + 1, word, true);
        WordNulFree(text, ig, WaitEscIn, i + 1, word, escaped);
        WordNulFree(text, ig, WaitEscEscIn, i + 1, word, escaped);
        WordNulFree(text, ig, WaitVal, i + 1, word, escaped);
      }
    }
  }

  lemma {:induction false} PairStorable(key: str, w: str, escaped: bool)
    requires NulFree(key) && NulFree(w)
    ensures StorableItem(MakePair(key, w, escaped))
  {
  }

  /** Every parsed pair can be stored. */
  lemma {:induction false} ParsedStorable(text: str, st: PState, i: nat, key: str, pairs: seq<Item>)
    requires i <= |text| && NulFree(key) && AllStorable(pairs)
    ensures var r := Parse(text, st, i, key, pairs); r.Pairs? ==> AllStorable(r.pairs)
    decreases |text| - i
  {
    hide Gv, MakePair, StorableItem;
    if st == WKey {
      var r := Gv(text, false, WaitVal, i, [], false);
      WordNulFree(text, false, WaitVal, i, [], false);
      if r.Word? {
        ParsedStorable(text, WEq, r.ptr + 1, r.word, pairs);
      }
    } else if st == WVal {
      var r := Gv(text, true, WaitVal, i, [], false);
      WordNulFree(text, true, WaitVal, i, [], false);
      if r.Word? {
        PairStorable(key, r.word, r.escaped);
        ParsedStorable(text, WDel, r.ptr + 1, [], pairs + [MakePair(key, r.word, r.escaped)]);
      }
    } else if i < |text| {
      ParsedStorable(text, WGt, i + 1, key, pairs);
      ParsedStorable(text, WEq, i + 1, key, pairs);
      ParsedStorable(text, WVal, i + 1, key, pairs);
      ParsedStorable(text, WKey, i + 1, [], pairs);
      ParsedStorable(text, WDel, i + 1, [], pairs);
    }
  }

  // ---- uniquePairs --------------------------------------------------------

  ghost predicate Sorted(s: seq<Item>) {
    forall i, j :: 0 <= i < j < |s| ==> CompareKeys(s[i].key, s[j].key) <= 0
  }

  /** u has one item for every key of s, each taken from s, in strict order. */
  ghost predicate Deduplicated(s: seq<Item>, u: seq<Item>) {
    && Strict(u)
    && (forall j :: 0 <= j < |u| ==> u[j] in s)
    && (forall i :: 0 <= i < |s| ==> HasKey(u, s[i].key))
  }

  ghost predicate HasKey(u: seq<Item>, k: str) {
    exists j :: 0 <= j < |u| && u[j].key == k
  }

  lemma {:induction false} NotAfterTrans(a: str, b: str, c: str)
    requires NulFree(a) && NulFree(b) && CompareKeys(a, b) <= 0 && CompareKeys(b, c) <= 0
    ensures CompareKeys(a, c) <= 0
  {
    hide CompareKeys;
    KeyOrder(a, b);
    KeyOrder(b, c);
    if CompareKeys(a, b) < 0 && CompareKeys(b, c) < 0 {
      KeyTrans(a, b, c);
    }
  }

  /** Inserts an item into a sorted list. */
  method InsertSorted(s: seq<Item>, it: Item) returns (t: seq<Item>)
    requires Sorted(s) && AllStorable(s) && StorableItem(it)
    ensures Sorted(t) && AllStorable(t) && multiset(t) == multiset(s) + multiset{it}
  {
    hide CompareKeys, StorableItem, Sorted;
    var n := |s|;
    while n > 0 && CompareKeys(s[n - 1].key, it.key) > 0
      invariant 0 <= n <= |s|
      invariant forall k :: n <= k < |s| ==> CompareKeys(s[k].key, it.key) > 0
    {
      n := n - 1;
    }
    t := s[..n] + [it] + s[n..];
    InsertedItems(s, it, n);
    InsertedSorted(s, it, n);
  }

  lemma {:induction false} InsertedItems(s: seq<Item>, it: Item, n: nat)
    requires n <= |s|
    ensures multiset(s[..n] + [it] + s[n..]) == multiset(s) + multiset{it}
  {
    assert s == s[..n] + s[n..];
  }

  lemma {:induction false} InsertedSorted(s: seq<Item>, it: Item, n: nat)
    requires Sorted(s) && AllStorable(s) && StorableItem(it) && n <= |s|
    requires n > 0 ==> CompareKeys(s[n - 1].key, it.key) <= 0
    requires forall k :: n <= k < |s| ==> CompareKeys(s[k].key, it.key) > 0
    ensures Sorted(s[..n] + [it] + s[n..])
  {
    hide CompareKeys;
    forall k | 0 <= k < n ensures CompareKeys(s[k].key, it.key) <= 0 {
      if k < n - 1 {
        NotAfterTrans(s[k].key, s[n - 1].key, it.key);
      }
    }
    forall k | n <= k < |s| ensures CompareKeys(it.key, s[k].key) <= 0 {
      KeyOrder(s[k].key, it.key);
    }
  }

  /** qsort with comparePairs: some ascending arrangement; the order of equal keys is not specified. */
  method QSort(s: seq<Item>) returns (t: seq<Item>)
    requires AllStorable(s)
    ensures Sorted(t) && AllStorable(t) && multiset(t) == multiset(s)
  {
    t := [];
    for i := 0 to |s|
      invariant Sorted(t) && AllStorable(t) && multiset(t) == multiset(s[..i])
    {
      assert s[..i + 1] == s[..i] + [s[i]];
      t := InsertSorted(t, s[i]);
    }
    assert s[..|s|] == s;
  }

  /** The items left when each item whose key repeats the last kept key is dropped. */
  function Uniq(s: seq<Item>): (u: seq<Item>)
    requires s != []
    ensures u != [] && |u| <= |s|
  {
    if |s| == 1 then s
    else
      var u, it := Uniq(s[..|s| - 1]), s[|s| - 1];
      if CompareKeys(it.key, u[|u| - 1].key) == 0 then u else u + [it]
  }

  lemma {:induction false} UniqStep(s: seq<Item>, n: nat)
    requires 1 <= n < |s|
    ensures var u := Uniq(s[..n]);
      Uniq(s[..n + 1]) == if CompareKeys(s[n].key, u[|u| - 1].key) == 0 then u else u + [s[n]]
  {
    assert s[..n + 1][..n] == s[..n];
  }

  lemma {:induction false} StrictSnoc(u: seq<Item>, it: Item)
    requires Strict(u) && AllStorable(u) && u != [] && CompareKeys(u[|u| - 1].key, it.key) < 0
    ensures Strict(u + [it])
  {
    hide CompareKeys;
    var r := (u + [it])[1..];
    if |u| == 1 {
      assert r == [it] && [it][1..] == [] && Strict([it]);
    } else {
      assert r == u[1..] + [it];
      StrictSnoc(u[1..], it);
      StrictAt(u, 0, |u| - 1);
      KeyTrans(u[0].key, u[|u| - 1].key, it.key);
    }
  }

  lemma {:induction false} UniqLast(s: seq<Item>)
    requires s != [] && AllStorable(s) && Sorted(s)
    ensures Uniq(s)[|Uniq(s)| - 1].key == s[|s| - 1].key
    ensures forall j :: 0 <= j < |Uniq(s)| ==> Uniq(s)[j] in s
  {
    hide CompareKeys;
    if |s| > 1 {
      var t, it := s[..|s| - 1], s[|s| - 1];
      UniqLast(t);
      KeyOrder(it.key, Uniq(t)[|Uniq(t)| - 1].key);
    }
  }

  lemma {:induction false} KeysKept(t: seq<Item>, u: seq<Item>, s: seq<Item>, v: seq<Item>)
    requires s != [] && t == s[..|s| - 1] && |u| <= |v| && v[..|u|] == u
    requires (forall i :: 0 <= i < |t| ==> HasKey(u, t[i].key)) && HasKey(v, s[|s| - 1].key)
    ensures forall i :: 0 <= i < |s| ==> HasKey(v, s[i].key)
  {
    forall i | 0 <= i < |s| ensures HasKey(v, s[i].key) {
      if i < |t| {
        assert HasKey(u, t[i].key);
        var j :| 0 <= j < |u| && u[j].key == t[i].key;
        assert v[j] == v[..|u|][j];
      }
    }
  }

  lemma {:induction false} UniqStorable(s: seq<Item>)
    requires s != [] && AllStorable(s) && Sorted(s)
    ensures AllStorable(Uniq(s))
  {
    hide StorableItem, CompareKeys, Uniq;
    UniqLast(s);
  }

  lemma {:induction false} UniqStrict(s: seq<Item>)
    requires s != [] && AllStorable(s) && Sorted(s)
    ensures Strict(Uniq(s))
  {
    hide CompareKeys, StorableItem, Strict;
    if |s| > 1 {
      var t, it := s[..|s| - 1], s[|s| - 1];
      var u := Uniq(t);
      UniqStrict(t);
      UniqStorable(t);
      UniqLast(t);
      assert CompareKeys(t[|t| - 1].key, it.key) <= 0;
      KeyOrderOf(u[|u| - 1], it);
      if CompareKeys(it.key, u[|u| - 1].key) != 0 {
        StrictSnoc(u, it);
      }
    } else {
      OnePair(s);
    }
  }

  lemma {:induction false} UniqKeys(s: seq<Item>)
    requires s != [] && AllStorable(s) && Sorted(s)
    ensures forall i :: 0 <= i < |s| ==> HasKey(Uniq(s), s[i].key)
  {
    hide CompareKeys, StorableItem, HasKey;
    var v := Uniq(s);
    LastKey(v);
    UniqLast(s);
    if |s| > 1 {
      var t := s[..|s| - 1];
      UniqKeys(t);
      KeysKept(t, Uniq(t), s, v);
    }
  }

  /** On a sorted list this removes exactly the duplicates. */
  lemma {:induction false} UniqDeduplicates(s: seq<Item>)
    requires s != [] && AllStorable(s) && Sorted(s)
    ensures Deduplicated(s, Uniq(s)) && AllStorable(Uniq(s))
  {
    hide CompareKeys, StorableItem, HasKey, Strict, Uniq;
    UniqStorable(s);
    UniqStrict(s);
    UniqLast(s);
    UniqKeys(s);
  }

  lemma {:induction false} LastKey(v: seq<Item>)
    requires v != []
    ensures HasKey(v, v[|v| - 1].key)
  {
  }

  lemma {:induction false} KeyOrderOf(a: Item, b: Item)
    requires StorableItem(a)
    ensures CompareKeys(a.key, b.key) == 0 <==> CompareKeys(b.key, a.key) == 0
    ensures CompareKeys(a.key, b.key) == 0 <==> a.key == b.key
  {
    KeyOrder(a.key, b.key);
  }

  /** The loop of uniquePairs, compacting in place. */
  method Compact(s: seq<Item>) returns (r: seq<Item>, buflen: nat)
    requires s != []
    ensures r == Uniq(s) && buflen == |Flat(r)|
  {
    hide CompareKeys, ItemBytes, Flat, Uniq;
    var a := s;
    var ptr, res := 1, 0;
    buflen := 0;
    OnePair(s[..1]);
    while ptr < |a|
      invariant 0 <= res < ptr <= |a| == |s| && a[ptr..] == s[ptr..]
      invariant a[..res + 1] == Uniq(s[..ptr])
      invariant buflen + ItemSize(a[res]) == |Flat(a[..res + 1])|
    {
      UniqStep(s, ptr);
      assert a[ptr] == a[ptr..][0] == s[ptr];
      if CompareKeys(a[ptr].key, a[res].key) != 0 {
        buflen := buflen + ItemSize(a[res]);
        ghost var u := a[..res + 1];
        res := res + 1;
        FlatSnoc(u, a[ptr]);
        a := a[res := a[ptr]];
        assert a[..res + 1] == u + [s[ptr]];
      }
      ptr := ptr + 1;
    }
    buflen := buflen + ItemSize(a[res]);
    assert s[..ptr] == s;
    r := a[..res + 1];
  }

  /** uniquePairs: one pair per key; buflen is the size of the data area. */
  method UniquePairs(pairs: seq<Item>) returns (r: seq<Item>, buflen: nat)
    requires AllStorable(pairs)
    ensures Deduplicated(pairs, r) && AllStorable(r) && buflen == |Flat(r)|
  {
    hide CompareKeys, StorableItem, ItemBytes, Strict, Deduplicated, Flat, Uniq;
    if |pairs| < 2 {
      if |pairs| == 1 {
        OnePair(pairs);
        return pairs, ItemSize(pairs[0]);
      }
      NoPairs();
      return pairs, 0;
    }
    var a := QSort(pairs);
    SameSize(a, pairs);
    r, buflen := Compact(a);
    UniqDeduplicates(a);
    DedupSame(a, pairs, r);
  }

  function ItemSize(it: Item): (n: nat)
    ensures n == |ItemBytes(it)|
  {
    |it.key| + (if it.val.None? then 0 else |it.val.value|)
  }

  lemma {:induction false} OnePair(pairs: seq<Item>)
    requires |pairs| == 1
    ensures Deduplicated(pairs, pairs) && Strict(pairs) && |Flat(pairs)| == |ItemBytes(pairs[0])| && Uniq(pairs) == pairs
  {
    assert pairs == [] + [pairs[0]];
    FlatSnoc([], pairs[0]);
  }

  lemma {:induction false} NoPairs()
    ensures Deduplicated([], []) && Flat([]) == []
  {
  }

  lemma {:induction false} SameSize(s: seq<Item>, t: seq<Item>)
    requires multiset(s) == multiset(t)
    ensures |s| == |t|
  {
    assert |multiset(s)| == |s| && |multiset(t)| == |t|;
  }

  lemma {:induction false} DedupSame(s: seq<Item>, t: seq<Item>, u: seq<Item>)
    requires multiset(s) == multiset(t) && Deduplicated(s, u)
    ensures Deduplicated(t, u)
  {
    forall j | 0 <= j < |u| ensures u[j] in t {
      assert u[j] in multiset(s);
    }
    forall i | 0 <= i < |t| ensures HasKey(u, t[i].key) {
      assert t[i] in multiset(t);
      assert t[i] in s;
    }
  }

  /** Where there were no duplicates, nothing changes. */
  lemma {:induction false} DedupStrict(s: seq<Item>, u: seq<Item>)
    requires Strict(s) && AllStorable(s) && AllStorable(u) && Deduplicated(s, u)
    ensures u == s
    decreases |s|
  {
    hide CompareKeys;
    assert u != [] ==> u[0] in s;
    if s != [] {
      SameFirst(s, u);
      assert s == [s[0]] + s[1..] && u == [u[0]] + u[1..];
      TailsDedup(s, u);
      DedupStrict(s[1..], u[1..]);
    }
  }

  /** An item of a strict list is its first or comes after it. */
  lemma {:induction false} FirstLeast(s: seq<Item>, it: Item)
    requires Strict(s) && AllStorable(s) && it in s
    ensures it == s[0] || CompareKeys(s[0].key, it.key) < 0
    ensures it.key == s[0].key ==> it == s[0]
  {
    var i :| 0 <= i < |s| && s[i] == it;
    if i > 0 {
      StrictAt(s, 0, i);
      KeyOrder(s[0].key, it.key);
    }
  }

  lemma {:induction false} SameFirst(s: seq<Item>, u: seq<Item>)
    requires s != [] && Strict(s) && AllStorable(s) && AllStorable(u) && Deduplicated(s, u)
    ensures u != [] && u[0] == s[0]
  {
    hide CompareKeys;
    assert HasKey(u, s[0].key);
    var j :| 0 <= j < |u| && u[j].key == s[0].key;
    FirstLeast(u, u[j]);
    FirstLeast(s, u[0]);
    FirstLeast(s, u[j]);
    KeyOrder(s[0].key, u[0].key);
  }

  lemma {:induction false} TailsDedup(s: seq<Item>, u: seq<Item>)
    requires s != [] && u != [] && u[0] == s[0]
    requires Strict(s) && AllStorable(s) && AllStorable(u) && Deduplicated(s, u)
    ensures Deduplicated(s[1..], u[1..])
  {
    hide CompareKeys;
    forall j | 0 <= j < |u[1..]| ensures u[1..][j] in s[1..] {
      assert u[j + 1] in s;
      StrictAt(u, 0, j + 1);
      KeyOrder(u[0].key, u[0].key);
      var i :| 0 <= i < |s| && s[i] == u[j + 1];
      assert s[1..][i - 1] == u[j + 1];
    }
    forall i | 0 <= i < |s[1..]| ensures HasKey(u[1..], s[1..][i].key) {
      assert HasKey(u, s[i + 1].key);
      var j :| 0 <= j < |u| && u[j].key == s[i + 1].key;
      StrictAt(s, 0, i + 1);
      KeyOrder(s[0].key, s[0].key);
      assert u[1..][j - 1].key == s[i + 1].key;
    }
  }

  // ---- hstore_in ----------------------------------------------------------

  /** The packing loop of hstore_in. */
  method Pack(pairs: seq<Item>) returns (h: HStore)
    ensures Represents(h, pairs)
  {
    hide Represents, ItemBytes;
    h := HStore([], []);
    HstoreOps.EmptyStore();
    assert pairs[..0] == [];
    for i := 0 to |pairs|
      invariant Represents(h, pairs[..i])
    {
      assert pairs[..i + 1] == pairs[..i] + [pairs[i]];
      var p := pairs[i];
      var e := HEntry(|p.key|, if p.val.None? then 4 else |p.val.value|, p.val.None?, |h.data|);
      RepresentsSnoc(h, pairs[..i], e, p);
      BytesOf(p);
      h := HStore(h.entries + [e], h.data + (p.key + (if p.val.None? then [] else p.val.value)));
    }
    assert pairs[..|pairs|] == pairs;
  }

  lemma {:induction false} BytesOf(p: Item)
    ensures ItemBytes(p) == p.key + (if p.val.None? then [] else p.val.value)
  {
  }

  datatype InResult = Stored(h: HStore) | Error(at: nat)

  /** hstore_in: the parsed pairs, one per key, packed. A text is accepted exactly when it is derivable, and then the pairs
      are those that any derivation of it stands for. */
  method In(text: str) returns (r: InResult)
    ensures match Parse(text, WKey, 0, [], [])
      case SyntaxError(at) => r == Error(at)
      case Pairs(ps) => r.Stored? && WellFormed(r.h) && Deduplicated(ps, ItemsOf(r.h))
    ensures NulFree(text) ==> (r.Stored? <==> exists s :: HstoreGrammar.Derives(s, text))
    ensures forall s :: HstoreGrammar.Derives(s, text) ==>
      r.Stored? && WellFormed(r.h) && Deduplicated(HstoreGrammar.StandsFor(s), ItemsOf(r.h))
  {
    hide HstoreGrammar.Derives, HstoreGrammar.StandsFor;
    hide Parse, Represents, Strict, Deduplicated, ItemsOf, WellFormed;
    if NulFree(text) {
      HstoreGrammar.AcceptedExactly(text);
    }
    forall s | HstoreGrammar.Derives(s, text) ensures Parse(text, WKey, 0, [], []) == Pairs(HstoreGrammar.StandsFor(s)) {
      HstoreGrammar.ParsedIsStood(text, s);
    }
    var state := new HSParser(text);
    var err := state.ParseHstore();
    if err.Some? {
      return Error(err.value);
    }
    ParsedStorable(text, WKey, 0, [], []);
    var pairs, buflen := UniquePairs(state.pairs);
    var h := Pack(pairs);
    DedupProper(state.pairs, pairs);
    RepresentsItems(h, pairs);
    r := Stored(h);
  }

  lemma {:induction false} DedupProper(s: seq<Item>, u: seq<Item>)
    requires Deduplicated(s, u) && AllStorable(u)
    ensures Proper(u)
  {
  }

  /** hstore_in undoes hstore_out: the same items in the same order. */
  method RoundTrip(h: HStore) returns (r: InResult)
    requires WellFormed(h)
    ensures r.Stored? && WellFormed(r.h) && ItemsOf(r.h) == ItemsOf(h)
  {
    hide Parse, Print, Represents, Strict, Deduplicated, ItemAt;
    var text := HstoreText.Out(h);
    r := In(text);
    ParsePrint(ItemsOf(h));
    DedupStrict(ItemsOf(h), ItemsOf(r.h));
  }
}

/** hstore operators: on packed stores they do what the map operations do. */
module HstoreOps {
  import opened HstoreData

  // ---- Specifications on items --------------------------------------------

  /** The merge of two stores; on equal keys the second wins. */
  function Merge(a: seq<Item>, b: seq<Item>): seq<Item>
    decreases |a| + |b|
  {
    if a == [] then b
    else if b == [] then a
    else
      var d := CompareKeys(a[0].key, b[0].key);
      if d == 0 then [b[0]] + Merge(a[1..], b[1..])
      else if d > 0 then [b[0]] + Merge(a, b[1..])
      else [a[0]] + Merge(a[1..], b)
  }

  function Without(items: seq<Item>, key: str): seq<Item> {
    if items == [] then []
    else if CompareKeys(items[0].key, key) == 0 then Without(items[1..], key)
    else [items[0]] + Without(items[1..], key)
  }

  lemma {:induction false} ProperTail(items: seq<Item>)
    requires Proper(items) && items != []
    ensures Proper(items[1..]) && Before(items[0].key, items[1..]) && StorableItem(items[0])
  {
  }

  lemma {:induction false} ProperCons(it: Item, items: seq<Item>)
    requires StorableItem(it) && Proper(items) && Before(it.key, items)
    ensures Proper([it] + items)
  {
    assert ([it] + items)[1..] == items;
  }

  lemma {:induction false} BeforeHead(k: str, items: seq<Item>)
    requires Proper(items) && (items == [] || CompareKeys(k, items[0].key) < 0)
    ensures Before(k, items)
  {
    forall i | 0 <= i < |items| ensures CompareKeys(k, items[i].key) < 0 {
      if i > 0 {
        StrictAt(items, 0, i);
        KeyTrans(k, items[0].key, items[i].key);
      }
    }
  }

  lemma {:induction false} MergeBefore(k: str, a: seq<Item>, b: seq<Item>)
    requires Before(k, a) && Before(k, b)
    ensures Before(k, Merge(a, b))
    decreases |a| + |b|
  {
    if a != [] && b != [] {
      MergeBefore(k, a[1..], b[1..]);
      MergeBefore(k, a, b[1..]);
      MergeBefore(k, a[1..], b);
    }
  }

  /** The merge keeps the order and is the map of the first store overridden by the second. */
  lemma {:induction false} MergeMap(a: seq<Item>, b: seq<Item>)
    requires Proper(a) && Proper(b)
    ensures Proper(Merge(a, b)) && MapOf(Merge(a, b)) == MapOf(a) + MapOf(b)
    decreases |a| + |b|, 0
  {
    hide CompareKeys, Proper, Before;
    if a != [] && b != [] {
      ProperTail(a);
      ProperTail(b);
      KeyOrder(a[0].key, b[0].key);
      var d := CompareKeys(a[0].key, b[0].key);
      if d == 0 {
        MergeStep(b[0], a[1..], b[1..]);
      } else if d > 0 {
        BeforeHead(b[0].key, a);
        MergeStep(b[0], a, b[1..]);
      } else {
        BeforeHead(a[0].key, b);
        MergeStep(a[0], a[1..], b);
        BeforeMissing(a[0].key, b);
      }
    }
  }

  lemma {:induction false} MergeStep(it: Item, a: seq<Item>, b: seq<Item>)
    requires Proper(a) && Proper(b) && StorableItem(it) && Before(it.key, a) && Before(it.key, b)
    ensures Proper([it] + Merge(a, b)) && MapOf([it] + Merge(a, b)) == (MapOf(a) + MapOf(b))[it.key := it.val]
    decreases |a| + |b|, 1
  {
    MergeMap(a, b);
    MergeBefore(it.key, a, b);
    ProperCons(it, Merge(a, b));
    assert ([it] + Merge(a, b))[1..] == Merge(a, b);
  }

  lemma {:induction false} WithoutBefore(k: str, items: seq<Item>, key: str)
    requires Before(k, items)
    ensures Before(k, Without(items, key))
  {
    if items != [] {
      WithoutBefore(k, items[1..], key);
    }
  }

  /** Deleting removes exactly one key. */
  lemma {:induction false} WithoutMap(items: seq<Item>, key: str)
    requires Proper(items)
    ensures Proper(Without(items, key)) && MapOf(Without(items, key)) == MapOf(items) - {key}
  {
    if items != [] {
      ProperTail(items);
      WithoutMap(items[1..], key);
      KeyOrder(items[0].key, key);
      if CompareKeys(items[0].key, key) != 0 {
        var rest := Without(items[1..], key);
        WithoutBefore(items[0].key, items[1..], key);
        ProperCons(items[0], rest);
        assert ([items[0]] + rest)[1..] == rest;
      }
    }
  }

  // ---- Reading a store ----------------------------------------------------

  lemma {:induction false} EntryKey(h: HStore, i: nat)
    requires WellFormed(h) && i < |h.entries|
    ensures var e := h.entries[i];
      e.pos + EntrySize(e) <= |h.data| && h.data[e.pos..e.pos + e.keylen] == ItemsOf(h)[i].key && e.keylen == |ItemsOf(h)[i].key|
  {
  }

  /** findkey: binary search; the entry of a key exactly when the map has it. */
  method FindKey(h: HStore, key: str) returns (at: Option<nat>)
    requires WellFormed(h)
    ensures at.Some? <==> key in MapOf(ItemsOf(h))
    ensures at.Some? ==> at.value < |h.entries| && ItemsOf(h)[at.value] == Item(key, MapOf(ItemsOf(h))[key])
  {
    hide MapOf, Strict, Represents, ItemAt;
    ghost var items := ItemsOf(h);
    var lo, hi := 0, |h.entries|;
    while lo < hi
      invariant 0 <= lo <= hi <= |items|
      invariant forall i :: 0 <= i < lo ==> CompareKeys(items[i].key, key) < 0
      invariant forall i :: hi <= i < |items| ==> CompareKeys(items[i].key, key) > 0
    {
      var mid := lo + (hi - lo) / 2;
      EntryKey(h, mid);
      var e := h.entries[mid];
      var difference :=
        if e.keylen == |key| then Strncmp(h.data[e.pos..e.pos + e.keylen], key, e.keylen)
        else if e.keylen > |key| then 1 else -1;
      assert difference == CompareKeys(items[mid].key, key);
      KeyOrder(items[mid].key, key);
      if difference == 0 {
        MapAt(items, mid);
        return Some(mid);
      } else if difference < 0 {
        LowSide(items, mid, key);
        lo := mid + 1;
      } else {
        HighSide(items, mid, key);
        hi := mid;
      }
    }
    Missing(items, key, lo);
    at := None;
  }

  lemma {:induction false} LowSide(items: seq<Item>, mid: nat, key: str)
    requires Proper(items) && mid < |items| && CompareKeys(items[mid].key, key) < 0
    ensures forall i :: 0 <= i <= mid ==> CompareKeys(items[i].key, key) < 0
  {
    forall i | 0 <= i <= mid ensures CompareKeys(items[i].key, key) < 0 {
      if i < mid {
        StrictAt(items, i, mid);
        KeyTrans(items[i].key, items[mid].key, key);
      }
    }
  }

  lemma {:induction false} HighSide(items: seq<Item>, mid: nat, key: str)
    requires Proper(items) && mid < |items| && CompareKeys(items[mid].key, key) > 0
    ensures forall i :: mid <= i < |items| ==> CompareKeys(items[i].key, key) > 0
  {
    forall i | mid <= i < |items| ensures CompareKeys(items[i].key, key) > 0 {
      KeyOrder(items[mid].key, key);
      KeyOrder(items[i].key, key);
      if mid < i {
        StrictAt(items, mid, i);
        KeyTrans(key, items[mid].key, items[i].key);
      }
    }
  }

  lemma {:induction false} Missing(items: seq<Item>, key: str, lo: nat)
    requires Proper(items) && lo <= |items|
    requires forall i :: 0 <= i < lo ==> CompareKeys(items[i].key, key) < 0
    requires forall i :: lo <= i < |items| ==> CompareKeys(items[i].key, key) > 0
    ensures key !in MapOf(items)
  {
    MapKeys(items, key);
    if i :| 0 <= i < |items| && items[i].key == key {
      KeyOrder(items[i].key, key);
      assert false;
    }
  }

  /** hs_contains: every key of the template, with its value unless that is null. */
  method Contains(val: HStore, tmpl: HStore) returns (res: bool)
    requires WellFormed(val) && WellFormed(tmpl)
    ensures res <==> var V, T := MapOf(ItemsOf(val)), MapOf(ItemsOf(tmpl));
      forall k :: k in T ==> k in V && (T[k].Some? ==> V[k] == T[k])
  {
    hide MapOf, Represents, Strict, ItemAt, Matches;
    ghost var V, items := MapOf(ItemsOf(val)), ItemsOf(tmpl);
    res := true;
    var te := 0;
    while res && te < |tmpl.entries|
      invariant 0 <= te <= |items|
      invariant res ==> forall i :: 0 <= i < te ==> Matches(V, items[i])
      invariant !res ==> te > 0 && !Matches(V, items[te - 1])
    {
      res := MatchEntry(val, tmpl, te);
      te := te + 1;
    }
    MatchesAll(V, items, te, res);
  }

  /** One turn of hs_contains. */
  method MatchEntry(val: HStore, tmpl: HStore, te: nat) returns (res: bool)
    requires WellFormed(val) && WellFormed(tmpl) && te < |tmpl.entries|
    ensures res == Matches(MapOf(ItemsOf(val)), ItemsOf(tmpl)[te])
  {
    hide MapOf, WellFormed, ItemsOf, Strncmp;
    var t := tmpl.entries[te];
    EntryKey(tmpl, te);
    var entry := FindKey(val, tmpl.data[t.pos..t.pos + t.keylen]);
    if entry.None? {
      return false;
    }
    res := true;
    EntryValue(tmpl, te);
    if !t.valisnull {
      var e := val.entries[entry.value];
      EntryValue(val, entry.value);
      if e.valisnull ||
         !(t.vallen == e.vallen
           && Strncmp(val.data[e.pos + e.keylen..e.pos + e.keylen + e.vallen],
                      tmpl.data[t.pos + t.keylen..t.pos + t.keylen + t.vallen], t.vallen) == 0) {
        res := false;
      }
    }
  }

  ghost predicate Matches(V: map<str, Option<str>>, it: Item) {
    it.key in V && (it.val.Some? ==> V[it.key] == it.val)
  }

  lemma {:induction false} EntryValue(h: HStore, i: nat)
    requires WellFormed(h) && i < |h.entries|
    ensures var e, it := h.entries[i], ItemsOf(h)[i];
      && |ItemsOf(h)| == |h.entries|
      && e.pos + EntrySize(e) <= |h.data| && e.valisnull == it.val.None?
      && (it.val.Some? ==>
        var v := h.data[e.pos + e.keylen..e.pos + e.keylen + e.vallen];
        v == it.val.value && forall w: str :: |w| == |v| ==> (Strncmp(v, w, |v|) == 0 <==> v == w))
  {
    var e, it := h.entries[i], ItemsOf(h)[i];
    if it.val.Some? {
      var v := it.val.value;
      forall w: str | |w| == |v| ensures Strncmp(v, w, |v|) == 0 <==> v == w {
        StrncmpSame(v);
        if Strncmp(v, w, |v|) == 0 {
          StrncmpZero(v, w);
        }
      }
    }
  }

  lemma {:induction false} MatchesAll(V: map<str, Option<str>>, items: seq<Item>, n: nat, res: bool)
    requires Proper(items) && n <= |items| && (res ==> n == |items|)
    requires res ==> forall i :: 0 <= i < n ==> Matches(V, items[i])
    requires !res ==> n > 0 && !Matches(V, items[n - 1])
    ensures res <==> var T := MapOf(items); forall k :: k in T ==> k in V && (T[k].Some? ==> V[k] == T[k])
  {
    var T := MapOf(items);
    if res {
      forall k | k in T ensures k in V && (T[k].Some? ==> V[k] == T[k]) {
        MapKeys(items, k);
        var i :| 0 <= i < |items| && items[i].key == k;
        MapAt(items, i);
        assert Matches(V, items[i]);
      }
    } else {
      MapAt(items, n - 1);
    }
  }

  // ---- Building a store ---------------------------------------------------

  /** The bytes behind a store's header: an entry takes up eight, k tells which. */
  datatype Cell = Part(e: HEntry, k: nat) | Byte(b: int)

  function PartsOf(e: HEntry): (s: seq<Cell>)
    ensures |s| == 8
  {
    seq(8, k requires 0 <= k < 8 => Part(e, k))
  }

  ghost function EntryCells(es: seq<HEntry>): (s: seq<Cell>)
    ensures |s| == 8 * |es|
  {
    if es == [] then [] else EntryCells(es[..|es| - 1]) + PartsOf(es[|es| - 1])
  }

  function ByteCells(d: str): (s: seq<Cell>)
    ensures |s| == |d|
  {
    seq(|d|, i requires 0 <= i < |d| => Byte(d[i]))
  }

  /** A store with its entry area and, right behind it, its data area. */
  ghost function Layout(h: HStore): seq<Cell> { EntryCells(h.entries) + ByteCells(h.data) }

  lemma {:induction false} EntryCellsSnoc(es: seq<HEntry>, e: HEntry)
    ensures EntryCells(es + [e]) == EntryCells(es) + PartsOf(e)
  {
    assert (es + [e])[..|es|] == es;
  }

  lemma {:induction false} ByteCellsConcat(d: str, d': str)
    ensures ByteCells(d + d') == ByteCells(d) + ByteCells(d')
  {
  }

  /** memcpy of s to offset o. */
  method Write(cells: array<Cell>, o: nat, s: seq<Cell>)
    requires o + |s| <= cells.Length
    modifies cells
    ensures cells[..] == old(cells[..o]) + s + old(cells[o + |s|..])
  {
    ghost var was := cells[..];
    for k := 0 to |s|
      invariant cells[..] == was[..o] + s[..k] + was[o + k..]
    {
      cells[o + k] := s[k];
    }
  }

  /** What was written, behind what was there from lo on; and what stands elsewhere. */
  lemma {:induction false} Written(was: seq<Cell>, now: seq<Cell>, o: nat, s: seq<Cell>, lo: nat)
    requires o + |s| <= |was| && now == was[..o] + s + was[o + |s|..] && lo <= o
    ensures |now| == |was| && now[lo..o + |s|] == was[lo..o] + s
  {
  }

  lemma {:induction false} Elsewhere(was: seq<Cell>, now: seq<Cell>, o: nat, s: seq<Cell>, lo: nat, hi: nat)
    requires o + |s| <= |was| && now == was[..o] + s + was[o + |s|..] && lo <= hi <= |was| && (hi <= o || o + |s| <= lo)
    ensures |now| == |was| && now[lo..hi] == was[lo..hi]
  {
  }

  /** memmove of n cells to a lower offset; the areas may overlap. */
  method MoveDown(cells: array<Cell>, from: nat, to: nat, n: nat)
    requires to <= from && from + n <= cells.Length
    modifies cells
    ensures cells[..to + n] == old(cells[..to]) + old(cells[from..from + n])
  {
    ghost var was := cells[..];
    for i := 0 to n
      invariant cells[..to + i] == was[..to] + was[from..from + i]
      invariant forall k :: from + i <= k < cells.Length ==> cells[k] == was[k]
    {
      ghost var done := cells[..to + i];
      cells[to + i] := cells[from + i];
      assert cells[..to + (i + 1)] == done + [was[from + i]];
    }
  }

  /** A store being built: size entries have room, ed of them and ptrd bytes behind the entry area are written. */
  class Output {
    const cells: array<Cell>
    var size: nat
    var ed: nat
    var ptrd: nat
    ghost var built: HStore

    ghost predicate Valid()
      reads this, cells
    {
      && ed == |built.entries| <= size && ptrd == |built.data| && 8 * size + ptrd <= cells.Length
      && cells[..8 * ed] == EntryCells(built.entries) && cells[8 * size..8 * size + ptrd] == ByteCells(built.data)
    }

    constructor (size: nat, len: nat)
      ensures Valid() && fresh(cells) && this.size == size && cells.Length == 8 * size + len && built == HStore([], [])
    {
      cells := new Cell[8 * size + len](_ => Byte(0));
      this.size, ed, ptrd, built := size, 0, 0, HStore([], []);
    }

    /** Copies entry e, with its new position, and its bytes, found at offset p of h's data. */
    method Put(h: HStore, e: HEntry, p: nat)
      requires Valid() && ed < size && p + EntrySize(e) <= |h.data| && 8 * size + ptrd + EntrySize(e) <= cells.Length
      modifies this`ed, this`ptrd, this`built, cells
      ensures Valid() && built == HStore(old(built.entries) + [e.(pos := old(ptrd))], old(built.data) + h.data[p..p + EntrySize(e)])
    {
      hide EntryCells, PartsOf;
      var e' := e.(pos := ptrd);
      PutEntry(e');
      PutBytes(h.data[p..p + EntrySize(e)]);
    }

    method PutEntry(e: HEntry)
      requires Valid() && ed < size
      modifies this`ed, this`built, cells
      ensures Valid() && built == HStore(old(built.entries) + [e], old(built.data))
    {
      hide EntryCells, PartsOf, ByteCells;
      ghost var was := cells[..];
      Write(cells, 8 * ed, PartsOf(e));
      EntryCellsSnoc(built.entries, e);
      Written(was, cells[..], 8 * ed, PartsOf(e), 0);
      Elsewhere(was, cells[..], 8 * ed, PartsOf(e), 8 * size, 8 * size + ptrd);
      ed := ed + 1;
      built := HStore(built.entries + [e], built.data);
    }

    method PutBytes(d: str)
      requires Valid() && 8 * size + ptrd + |d| <= cells.Length
      modifies this`ptrd, this`built, cells
      ensures Valid() && built == HStore(old(built.entries), old(built.data) + d)
    {
      hide EntryCells, ByteCells;
      ghost var was := cells[..];
      var o := 8 * size + ptrd;
      Write(cells, o, ByteCells(d));
      ByteCellsConcat(built.data, d);
      Elsewhere(was, cells[..], o, ByteCells(d), 0, 8 * ed);
      Written(was, cells[..], o, ByteCells(d), 8 * size);
      ptrd := ptrd + |d|;
      built := HStore(built.entries, built.data + d);
    }

    /** The data area moves up to the entries that were written. */
    method Finish()
      requires Valid()
      modifies this`size, cells
      ensures Valid() && size == ed && built == old(built) && cells[..8 * ed + ptrd] == Layout(built)
    {
      hide EntryCells, ByteCells;
      if ed != size {
        ghost var E, B := cells[..8 * ed], cells[8 * size..8 * size + ptrd];
        MoveDown(cells, 8 * size, 8 * ed, ptrd);
        Halves(cells[..], 8 * ed, ptrd, E, B);
        size := ed;
      }
      assert cells[..8 * ed + ptrd] == cells[..8 * ed] + cells[8 * ed..8 * ed + ptrd];
    }
  }

  lemma {:induction false} Halves(s: seq<Cell>, i: nat, n: nat, a: seq<Cell>, b: seq<Cell>)
    requires i + n <= |s| && s[..i + n] == a + b && |a| == i
    ensures s[..i] == a && s[i..i + n] == b
  {
    assert s[..i] == s[..i + n][..i] && s[i..i + n] == s[..i + n][i..];
  }

  /** Copies entry e of h and its bytes, found at offset p, to the end of out. */
  method Append(out: Output, h: HStore, e: HEntry, p: nat, ghost items: seq<Item>, ghost it: Item)
    requires out.Valid() && Represents(out.built, items) && EntryFits(e, it, p)
    requires p + EntrySize(e) <= |h.data| && h.data[p..p + EntrySize(e)] == ItemBytes(it)
    requires out.ed < out.size && 8 * out.size + out.ptrd + EntrySize(e) <= out.cells.Length
    modifies out`ed, out`ptrd, out`built, out.cells
    ensures out.Valid() && Represents(out.built, items + [it])
    ensures out.ed == old(out.ed) + 1 && out.ptrd == old(out.ptrd) + EntrySize(e)
  {
    hide Represents, ItemBytes, EntryCells, ByteCells;
    RepresentsSnoc(out.built, items, e.(pos := out.ptrd), it);
    out.Put(h, e, p);
  }

  /** Entry i of h and where its bytes are. */
  lemma {:induction false} EntryBytes(h: HStore, items: seq<Item>, i: nat, p: nat)
    requires Represents(h, items) && i < |items| && p == |Flat(items[..i])|
    ensures var e := h.entries[i];
      && EntryFits(e, items[i], p) && p + EntrySize(e) <= |h.data| && h.data[p..p + EntrySize(e)] == ItemBytes(items[i])
      && p + EntrySize(e) == |Flat(items[..i + 1])|
  {
    hide Flat, ItemBytes;
    FlatAt(items, i);
    SizeOfEntry(h.entries[i], items[i], p);
  }

  lemma {:induction false} EmptyStore()
    ensures Represents(HStore([], []), []) && |Flat([])| == 0
  {
  }

  /** One turn of delete: the entry is copied unless it has the key. */
  method DeleteTurn(out: Output, h: HStore, key: str, es: nat, ptrs: nat, ghost items: seq<Item>, ghost done: seq<Item>)
      returns (ptrs': nat, ghost done': seq<Item>)
    requires Represents(h, items) && es < |h.entries| && Cursor(h, items, es, ptrs)
    requires out.Valid() && Represents(out.built, done) && done + Without(items[es..], key) == Without(items, key)
    requires out.ed < out.size && 8 * out.size + out.ptrd + |h.data| - ptrs <= out.cells.Length
    modifies out`ed, out`ptrd, out`built, out.cells
    ensures Cursor(h, items, es + 1, ptrs') && ptrs <= ptrs' <= |h.data|
    ensures out.Valid() && Represents(out.built, done') && done' + Without(items[es + 1..], key) == Without(items, key)
    ensures out.ed <= old(out.ed) + 1 && out.ptrd <= old(out.ptrd) + ptrs' - ptrs
  {
    hide Represents, ItemBytes, Flat, Without, CompareKeys, EntryCells, ByteCells;
    SameLength(h, items);
    EntryBytes(h, items, es, ptrs);
    WithoutAt(items, es, key);
    var e := h.entries[es];
    KeyAtOffset(h, e, items[es], ptrs, key);
    done' := done;
    if !(e.keylen == |key| && Strncmp(h.data[ptrs..ptrs + e.keylen], key, e.keylen) == 0) {
      Append(out, h, e, ptrs, done, items[es]);
      done' := done + [items[es]];
    }
    ptrs' := ptrs + EntrySize(e);
  }

  /** The loop of delete. */
  method DeleteLoop(h: HStore, key: str, ghost items: seq<Item>) returns (out: Output)
    requires Represents(h, items)
    ensures fresh(out) && fresh(out.cells) && out.Valid() && Represents(out.built, Without(items, key))
  {
    hide Represents, Cursor, Without, EntryCells, ByteCells;
    ghost var done: seq<Item> := [];
    EmptyStore();
    out := new Output(|h.entries|, |h.data|);
    var es: nat, ptrs: nat := 0, 0;
    CursorStart(h, items);
    assert items[0..] == items && [] + Without(items[0..], key) == Without(items, key);
    while es < |h.entries|
      invariant 0 <= es <= |items| && ptrs <= |h.data| && Cursor(h, items, es, ptrs)
      invariant fresh(out) && fresh(out.cells) && out.Valid() && Represents(out.built, done)
      invariant out.size == |h.entries| && out.cells.Length == 8 * out.size + |h.data| && out.ed <= es && out.ptrd <= ptrs
      invariant done + Without(items[es..], key) == Without(items, key)
    {
      ptrs, done := DeleteTurn(out, h, key, es, ptrs, items, done);
      es := es + 1;
    }
    WithoutNone(items, es, key);
    assert done + [] == done;
  }

  /** delete. */
  method Delete(h: HStore, key: str) returns (out: Output)
    requires WellFormed(h)
    ensures fresh(out) && out.Valid() && out.size == out.ed && out.cells[..8 * out.ed + out.ptrd] == Layout(out.built)
    ensures WellFormed(out.built) && MapOf(ItemsOf(out.built)) == MapOf(ItemsOf(h)) - {key}
  {
    hide MapOf, Strict, Represents, ItemAt, Without, EntryCells, ByteCells;
    ghost var items := ItemsOf(h);
    out := DeleteLoop(h, key, items);
    out.Finish();
    WithoutMap(items, key);
    RepresentsItems(out.built, Without(items, key));
  }

  lemma {:induction false} SameLength(h: HStore, items: seq<Item>)
    requires Represents(h, items)
    ensures |h.entries| == |items|
  {
  }

  lemma {:induction false} WithoutAt(items: seq<Item>, i: nat, key: str)
    requires i < |items|
    ensures Without(items[i..], key) ==
      (if CompareKeys(items[i].key, key) == 0 then [] else [items[i]]) + Without(items[i + 1..], key)
  {
    assert items[i..][1..] == items[i + 1..];
  }

  lemma {:induction false} WithoutNone(items: seq<Item>, i: nat, key: str)
    requires i == |items|
    ensures Without(items[i..], key) == []
  {
  }

  /** The key test of delete, on the bytes at an offset. */
  lemma {:induction false} KeyAtOffset(h: HStore, e: HEntry, it: Item, p: nat, key: str)
    requires EntryFits(e, it, p) && p + EntrySize(e) <= |h.data| && h.data[p..p + EntrySize(e)] == ItemBytes(it)
    ensures h.data[p..p + e.keylen] == it.key
    ensures CompareKeys(it.key, key) == 0 <==> e.keylen == |key| && Strncmp(h.data[p..p + e.keylen], key, e.keylen) == 0
  {
    assert h.data[p..p + e.keylen] == h.data[p..p + EntrySize(e)][..e.keylen];
  }

  /** Where a merge of two stores stands: i and j items consumed, done put out. */
  ghost predicate Merging(a: seq<Item>, b: seq<Item>, i: nat, j: nat, done: seq<Item>) {
    i <= |a| && j <= |b| && done + Merge(a[i..], b[j..]) == Merge(a, b)
  }

  lemma {:induction false} MergeBegins(a: seq<Item>, b: seq<Item>)
    ensures Merging(a, b, 0, 0, [])
  {
    assert a[0..] == a && b[0..] == b;
    assert [] + Merge(a[0..], b[0..]) == Merge(a, b);
  }

  /** The next step of a merge. */
  lemma {:induction false} MergeAdvances(a: seq<Item>, b: seq<Item>, i: nat, j: nat, done: seq<Item>)
    requires Merging(a, b, i, j, done)
    ensures i < |a| && j < |b| ==>
      var d := CompareKeys(a[i].key, b[j].key);
      if d == 0 then Merging(a, b, i + 1, j + 1, done + [b[j]])
      else if d > 0 then Merging(a, b, i, j + 1, done + [b[j]])
      else Merging(a, b, i + 1, j, done + [a[i]])
    ensures i < |a| && j == |b| ==> Merging(a, b, i + 1, j, done + [a[i]])
    ensures i == |a| && j < |b| ==> Merging(a, b, i, j + 1, done + [b[j]])
    ensures i == |a| && j == |b| ==> done == Merge(a, b)
  {
    hide CompareKeys;
    if i < |a| {
      assert a[i..][1..] == a[i + 1..] && a[i..] == [a[i]] + a[i + 1..];
    }
    if j < |b| {
      assert b[j..][1..] == b[j + 1..] && b[j..] == [b[j]] + b[j + 1..];
    }
  }

  /** The comparison of hs_concat, on the bytes at two offsets. */
  method CompareAt(s1: HStore, e1: HEntry, p1: nat, s2: HStore, e2: HEntry, p2: nat, ghost x: Item, ghost y: Item)
      returns (difference: int)
    requires EntryFits(e1, x, p1) && p1 + EntrySize(e1) <= |s1.data| && s1.data[p1..p1 + EntrySize(e1)] == ItemBytes(x)
    requires EntryFits(e2, y, p2) && p2 + EntrySize(e2) <= |s2.data| && s2.data[p2..p2 + EntrySize(e2)] == ItemBytes(y)
    ensures difference == CompareKeys(x.key, y.key)
  {
    hide ItemBytes, Strncmp;
    KeyAtOffset(s1, e1, x, p1, []);
    KeyAtOffset(s2, e2, y, p2, []);
    if e1.keylen == e2.keylen {
      difference := Strncmp(s1.data[p1..p1 + e1.keylen], s2.data[p2..p2 + e2.keylen], e1.keylen);
    } else {
      difference := if e1.keylen > e2.keylen then 1 else -1;
    }
  }

  /** Cursors into a store: entry i, whose bytes are at offset p. */
  ghost predicate Cursor(h: HStore, items: seq<Item>, i: nat, p: nat) {
    Represents(h, items) && i <= |items| && p == |Flat(items[..i])|
  }

  /** What is written so far fits what was read so far. */
  ghost predicate Room(out: Output, s1: HStore, s2: HStore, n: int, bytes: int)
    reads out, out.cells
  {
    && out.Valid() && out.size == |s1.entries| + |s2.entries| && out.cells.Length == 8 * out.size + |s1.data| + |s2.data|
    && out.ed <= n && out.ptrd <= bytes
  }

  /** Copies the entry under a cursor to the end of out. */
  method Take(out: Output, h: HStore, i: nat, p: nat, ghost done: seq<Item>, ghost items: seq<Item>) returns (p': nat)
    requires out.Valid() && Represents(out.built, done) && i < |h.entries| && Cursor(h, items, i, p)
    requires out.ed < out.size && 8 * out.size + out.ptrd + |h.data| - p <= out.cells.Length
    modifies out`ed, out`ptrd, out`built, out.cells
    ensures i < |items| && Cursor(h, items, i + 1, p') && p' == p + EntrySize(h.entries[i]) <= |h.data|
    ensures out.Valid() && Represents(out.built, done + [items[i]])
    ensures out.ed == old(out.ed) + 1 && out.ptrd == old(out.ptrd) + EntrySize(h.entries[i])
  {
    hide Represents, ItemBytes, Flat, EntryCells, ByteCells;
    SameLength(h, items);
    EntryBytes(h, items, i, p);
    Append(out, h, h.entries[i], p, done, items[i]);
    p' := p + EntrySize(h.entries[i]);
  }

  /** One turn of hs_concat's first loop. */
  method MergeTurn(out: Output, s1: HStore, i: nat, p1: nat, s2: HStore, j: nat, p2: nat,
                   ghost a: seq<Item>, ghost b: seq<Item>, ghost done: seq<Item>)
      returns (i': nat, p1': nat, j': nat, p2': nat, ghost done': seq<Item>)
    requires i < |s1.entries| && j < |s2.entries| && Cursor(s1, a, i, p1) && Cursor(s2, b, j, p2)
    requires Room(out, s1, s2, i + j, p1 + p2) && Represents(out.built, done) && Merging(a, b, i, j, done)
    modifies out`ed, out`ptrd, out`built, out.cells
    ensures Cursor(s1, a, i', p1') && Cursor(s2, b, j', p2') && i <= i' && j <= j' && i + j < i' + j'
    ensures Room(out, s1, s2, i' + j', p1' + p2') && Represents(out.built, done') && Merging(a, b, i', j', done')
  {
    hide Represents, ItemBytes, Flat, Merging, CompareKeys, EntryCells, ByteCells;
    SameLength(s1, a);
    SameLength(s2, b);
    EntryBytes(s1, a, i, p1);
    EntryBytes(s2, b, j, p2);
    var difference := CompareAt(s1, s1.entries[i], p1, s2, s2.entries[j], p2, a[i], b[j]);
    MergeAdvances(a, b, i, j, done);
    i', p1', j', p2' := i, p1, j, p2;
    if difference == 0 {
      p2' := Take(out, s2, j, p2, done, b);
      done' := done + [b[j]];
      p1' := p1 + EntrySize(s1.entries[i]);
      i', j' := i + 1, j + 1;
    } else if difference > 0 {
      p2' := Take(out, s2, j, p2, done, b);
      done' := done + [b[j]];
      j' := j + 1;
    } else {
      p1' := Take(out, s1, i, p1, done, a);
      done' := done + [a[i]];
      i' := i + 1;
    }
  }

  lemma {:induction false} CursorStart(h: HStore, items: seq<Item>)
    requires Represents(h, items)
    ensures Cursor(h, items, 0, 0) && |h.entries| == |items|
  {
    assert items[..0] == [];
  }

  lemma {:induction false} MergeEnds(a: seq<Item>, b: seq<Item>, i: nat, j: nat, done: seq<Item>)
    requires Merging(a, b, i, j, done) && (i == |a| || j == |b|)
    ensures (done + a[i..]) + b[j..] == Merge(a, b)
  {
    if i == |a| {
      assert a[i..] == [] && done + [] == done;
    } else {
      assert b[j..] == [] && (done + a[i..]) + [] == done + a[i..];
    }
  }

  /** One of the last two loops of hs_concat: what is left of one store. */
  method TakeRest(out: Output, h: HStore, i0: nat, p0: nat, ghost done: seq<Item>, ghost items: seq<Item>)
    requires out.Valid() && Represents(out.built, done) && i0 <= |h.entries| && Cursor(h, items, i0, p0)
    requires out.ed + |h.entries| - i0 <= out.size && p0 <= |h.data|
    requires 8 * out.size + out.ptrd + |h.data| - p0 <= out.cells.Length
    modifies out`ed, out`ptrd, out`built, out.cells
    ensures out.Valid() && Represents(out.built, done + items[i0..])
    ensures out.ed == old(out.ed) + |h.entries| - i0 && out.ptrd <= old(out.ptrd) + |h.data| - p0
  {
    hide Represents, Cursor, EntryCells, ByteCells;
    var i: nat, p: nat := i0, p0;
    CursorBound(h, items, i0, p0);
    assert items[i0..i0] == [] && done + [] == done;
    while i < |h.entries|
      invariant i0 <= i <= |h.entries| && Cursor(h, items, i, p) && p0 <= p <= |h.data|
      invariant out.Valid() && Represents(out.built, done + items[i0..i])
      invariant out.ed == old(out.ed) + i - i0 && out.ptrd == old(out.ptrd) + p - p0
    {
      p := Take(out, h, i, p, done + items[i0..i], items);
      assert (done + items[i0..i]) + [items[i]] == done + items[i0..i + 1];
      i := i + 1;
    }
    assert items[i0..i] == items[i0..];
  }

  /** The three loops of hs_concat. */
  method Join(s1: HStore, s2: HStore, ghost a: seq<Item>, ghost b: seq<Item>) returns (out: Output)
    requires Represents(s1, a) && Represents(s2, b)
    ensures fresh(out) && fresh(out.cells) && out.Valid() && Represents(out.built, Merge(a, b))
  {
    hide Represents, Cursor, Merging, Merge, EntryCells, ByteCells;
    ghost var done: seq<Item> := [];
    EmptyStore();
    out := new Output(|s1.entries| + |s2.entries|, |s1.data| + |s2.data|);
    CursorStart(s1, a);
    CursorStart(s2, b);
    MergeBegins(a, b);
    var i: nat, p1: nat, j: nat, p2: nat := 0, 0, 0, 0;
    while i < |s1.entries| && j < |s2.entries|
      invariant i <= |s1.entries| && j <= |s2.entries| && Cursor(s1, a, i, p1) && Cursor(s2, b, j, p2)
      invariant fresh(out) && fresh(out.cells) && Room(out, s1, s2, i + j, p1 + p2)
      invariant Represents(out.built, done) && Merging(a, b, i, j, done)
      decreases |s1.entries| + |s2.entries| - i - j
    {
      i, p1, j, p2, done := MergeTurn(out, s1, i, p1, s2, j, p2, a, b, done);
      CursorBound(s1, a, i, p1);
      CursorBound(s2, b, j, p2);
    }
    CursorBound(s1, a, i, p1);
    CursorBound(s2, b, j, p2);
    MergeEnds(a, b, i, j, done);
    TakeRest(out, s1, i, p1, done, a);
    TakeRest(out, s2, j, p2, done + a[i..], b);
  }

  lemma {:induction false} CursorBound(h: HStore, items: seq<Item>, i: nat, p: nat)
    requires Cursor(h, items, i, p)
    ensures i <= |h.entries| == |items| && p <= |h.data|
  {
    FlatPrefix(items, i);
  }

  lemma {:induction false} FlatPrefix(items: seq<Item>, i: nat)
    requires i <= |items|
    ensures |Flat(items[..i])| <= |Flat(items)|
  {
    if i < |items| {
      FlatPrefix(items[..|items| - 1], i);
      assert items[..|items| - 1][..i] == items[..i];
    } else {
      assert items[..i] == items;
    }
  }

  /** hs_concat: the first map overridden by the second. */
  method Concat(s1: HStore, s2: HStore) returns (out: Output)
    requires WellFormed(s1) && WellFormed(s2)
    ensures fresh(out) && out.Valid() && out.size == out.ed && out.cells[..8 * out.ed + out.ptrd] == Layout(out.built)
    ensures WellFormed(out.built) && MapOf(ItemsOf(out.built)) == MapOf(ItemsOf(s1)) + MapOf(ItemsOf(s2))
  {
    hide Represents, Strict, MapOf, ItemAt, Merge, EntryCells, ByteCells;
    ghost var a, b := ItemsOf(s1), ItemsOf(s2);
    out := Join(s1, s2, a, b);
    out.Finish();
    MergeMap(a, b);
    RepresentsItems(out.built, Merge(a, b));
  }
}

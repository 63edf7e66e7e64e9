/** hstore: the packed entries, the items they stand for, the key order and the map of a store. */
module HstoreData {
  import Bytes

  type str = seq<Bytes.byte>

  datatype Option<T> = None | Some(value: T)

  datatype Item = Item(key: str, val: Option<str>)

  /** The limit of the 16-bit length fields. */
  const LENGTHS: nat := 0x1_0000

  datatype HEntry = HEntry(keylen: nat, vallen: nat, valisnull: bool, pos: nat)

  /** The entry area and the data area the entries point into. */
  datatype HStore = HStore(entries: seq<HEntry>, data: str)

  // ---- The order of keys --------------------------------------------------

  /** strncmp: bytes as unsigned, up to the first difference, a common NUL, or n. */
  function Strncmp(a: str, b: str, n: nat): int
    requires n <= |a| && n <= |b|
    decreases n
  {
    if n == 0 then 0
    else if a[0] != b[0] then a[0] - b[0]
    else if a[0] == 0 then 0
    else Strncmp(a[1..], b[1..], n - 1)
  }

  /** Shorter keys first, then by bytes. */
  function CompareKeys(a: str, b: str): int {
    if |a| == |b| then Strncmp(a, b, |a|) else if |a| > |b| then 1 else -1
  }

  predicate NulFree(s: str) {
    forall i :: 0 <= i < |s| ==> s[i] != 0
  }

  lemma {:induction false} StrncmpZero(a: str, b: str)
    requires |a| == |b| && NulFree(a) && Strncmp(a, b, |a|) == 0
    ensures a == b
  {
    if a != [] {
      StrncmpZero(a[1..], b[1..]);
      assert a == [a[0]] + a[1..] && b == [b[0]] + b[1..];
    }
  }

  lemma {:induction false} StrncmpSame(a: str)
    ensures Strncmp(a, a, |a|) == 0
  {
    if a != [] {
      StrncmpSame(a[1..]);
    }
  }

  lemma {:induction false} StrncmpFlip(a: str, b: str)
    requires |a| == |b|
    ensures Strncmp(a, b, |a|) == -Strncmp(b, a, |a|)
  {
    if a != [] {
      StrncmpFlip(a[1..], b[1..]);
    }
  }

  lemma {:induction false} StrncmpTrans(a: str, b: str, c: str)
    requires |a| == |b| == |c| && NulFree(b) && Strncmp(a, b, |a|) < 0 && Strncmp(b, c, |a|) < 0
    ensures Strncmp(a, c, |a|) < 0
  {
    if a != [] && a[0] == b[0] == c[0] {
      StrncmpTrans(a[1..], b[1..], c[1..]);
    }
  }

  /** The key order is a strict total order on keys without NUL bytes. */
  lemma {:induction false} KeyOrder(a: str, b: str)
    requires NulFree(a)
    ensures CompareKeys(a, b) == 0 <==> a == b
    ensures CompareKeys(a, b) > 0 <==> CompareKeys(b, a) < 0
    ensures CompareKeys(a, b) < 0 <==> CompareKeys(b, a) > 0
  {
    if |a| == |b| {
      StrncmpFlip(a, b);
      StrncmpSame(a);
      if Strncmp(a, b, |a|) == 0 {
        StrncmpZero(a, b);
      }
    }
  }

  lemma {:induction false} KeyTrans(a: str, b: str, c: str)
    requires NulFree(b) && CompareKeys(a, b) < 0 && CompareKeys(b, c) < 0
    ensures CompareKeys(a, c) < 0
  {
    if |a| == |b| == |c| {
      StrncmpTrans(a, b, c);
    }
  }

  /** a and b have the bytes before i in common, and a has the lesser byte at i. */
  ghost predicate LessAt(a: str, b: str, i: nat) {
    i < |a| && i < |b| && a[..i] == b[..i] && a[i] < b[i]
  }

  lemma {:induction false} StrncmpIs(a: str, b: str)
    requires |a| == |b| && NulFree(a)
    ensures Strncmp(a, b, |a|) < 0 <==> exists i: nat :: LessAt(a, b, i)
  {
    if a != [] {
      StrncmpIs(a[1..], b[1..]);
      if a[0] == b[0] {
        if i: nat :| LessAt(a[1..], b[1..], i) {
          assert a[..i + 1] == [a[0]] + a[1..][..i] && b[..i + 1] == [b[0]] + b[1..][..i];
          assert LessAt(a, b, i + 1);
        }
        if i: nat :| LessAt(a, b, i) {
          assert i > 0 && a[1..][..i - 1] == a[..i][1..] && b[1..][..i - 1] == b[..i][1..];
          assert LessAt(a[1..], b[1..], i - 1);
        }
      } else if a[0] < b[0] {
        assert LessAt(a, b, 0);
      } else if i: nat :| LessAt(a, b, i) {
        assert i > 0 ==> a[..i][0] == b[..i][0];
      }
    }
  }

  /** A key comes before another when it is shorter, or as long and less at the first byte that differs. */
  lemma {:induction false} KeyOrderIs(a: str, b: str)
    requires NulFree(a)
    ensures CompareKeys(a, b) < 0 <==> |a| < |b| || (|a| == |b| && exists i: nat :: LessAt(a, b, i))
  {
    if |a| == |b| {
      StrncmpIs(a, b);
    }
  }

  // ---- Items --------------------------------------------------------------

  /** k comes before every key of the items. */
  predicate Before(k: str, items: seq<Item>) {
    forall i :: 0 <= i < |items| ==> CompareKeys(k, items[i].key) < 0
  }

  /** Keys in strictly ascending order. */
  predicate Strict(items: seq<Item>) {
    items == [] || (Before(items[0].key, items[1..]) && Strict(items[1..]))
  }

  predicate Storable(s: str) {
    NulFree(s) && |s| < LENGTHS
  }

  predicate StorableItem(it: Item) {
    Storable(it.key) && (it.val.Some? ==> Storable(it.val.value))
  }

  predicate AllStorable(items: seq<Item>) {
    forall i :: 0 <= i < |items| ==> StorableItem(items[i])
  }

  /** What a store may hold. */
  predicate Proper(items: seq<Item>) {
    Strict(items) && AllStorable(items)
  }

  function MapOf(items: seq<Item>): map<str, Option<str>> {
    if items == [] then map[] else MapOf(items[1..])[items[0].key := items[0].val]
  }

  lemma {:induction false} MapKeys(items: seq<Item>, k: str)
    ensures k in MapOf(items) <==> exists i :: 0 <= i < |items| && items[i].key == k
  {
    if items != [] {
      MapKeys(items[1..], k);
      if k in MapOf(items[1..]) {
        var i :| 0 <= i < |items[1..]| && items[1..][i].key == k;
        assert items[i + 1].key == k;
      }
      if i :| 0 <= i < |items| && items[i].key == k {
        if i > 0 {
          assert items[1..][i - 1].key == k;
        }
      }
    }
  }

  lemma {:induction false} BeforeMissing(k: str, items: seq<Item>)
    requires Before(k, items) && NulFree(k)
    ensures k !in MapOf(items)
  {
    MapKeys(items, k);
    if i :| 0 <= i < |items| && items[i].key == k {
      KeyOrder(k, k);
      assert false;
    }
  }

  lemma {:induction false} StrictAt(items: seq<Item>, i: nat, j: nat)
    requires Strict(items) && i < j < |items|
    ensures CompareKeys(items[i].key, items[j].key) < 0
  {
    if i == 0 {
      assert items[j] == items[1..][j - 1];
    } else {
      StrictAt(items[1..], i - 1, j - 1);
    }
  }

  /** The map of a store has each item's value under its key. */
  lemma {:induction false} MapAt(items: seq<Item>, i: nat)
    requires Proper(items) && i < |items|
    ensures items[i].key in MapOf(items) && MapOf(items)[items[i].key] == items[i].val
  {
    if i > 0 {
      MapAt(items[1..], i - 1);
      KeyOrder(items[0].key, items[i].key);
      StrictAt(items, 0, i);
    }
  }

  // ---- The layout ---------------------------------------------------------

  function ItemBytes(it: Item): str {
    it.key + (if it.val.Some? then it.val.value else [])
  }

  /** The data area of the items. */
  function Flat(items: seq<Item>): str {
    if items == [] then [] else Flat(items[..|items| - 1]) + ItemBytes(items[|items| - 1])
  }

  predicate EntryFits(e: HEntry, it: Item, at: nat) {
    e.keylen == |it.key| && e.pos == at && e.valisnull == it.val.None? && (it.val.Some? ==> e.vallen == |it.val.value|)
  }

  /** h holds exactly the items, packed without gaps. */
  predicate Represents(h: HStore, items: seq<Item>) {
    && |h.entries| == |items| && h.data == Flat(items)
    && forall i :: 0 <= i < |items| ==> EntryFits(h.entries[i], items[i], |Flat(items[..i])|)
  }

  function EntrySize(e: HEntry): nat {
    e.keylen + (if e.valisnull then 0 else e.vallen)
  }

  predicate InBounds(h: HStore) {
    forall i :: 0 <= i < |h.entries| ==> h.entries[i].pos + EntrySize(h.entries[i]) <= |h.data|
  }

  function ItemAt(h: HStore, e: HEntry): Item
    requires e.pos + EntrySize(e) <= |h.data|
  {
    Item(h.data[e.pos..e.pos + e.keylen],
         if e.valisnull then None else Some(h.data[e.pos + e.keylen..e.pos + e.keylen + e.vallen]))
  }

  /** The items a store holds. */
  function ItemsOf(h: HStore): (items: seq<Item>)
    requires InBounds(h)
  {
    seq(|h.entries|, i requires 0 <= i < |h.entries| => ItemAt(h, h.entries[i]))
  }

  /** Contiguous positions and strictly ordered keys. */
  predicate WellFormed(h: HStore) {
    InBounds(h) && Represents(h, ItemsOf(h)) && Proper(ItemsOf(h))
  }

  lemma {:induction false} FlatSnoc(items: seq<Item>, it: Item)
    ensures Flat(items + [it]) == Flat(items) + ItemBytes(it)
  {
    assert (items + [it])[..|items|] == items;
  }

  /** Item i lies at its offset. */
  lemma {:induction false} FlatAt(items: seq<Item>, i: nat)
    requires i < |items|
    ensures var o, n := |Flat(items[..i])|, |ItemBytes(items[i])|;
      o + n <= |Flat(items)| && Flat(items)[o..o + n] == ItemBytes(items[i]) && |Flat(items[..i + 1])| == o + n
  {
    var last := |items| - 1;
    assert items[..i + 1][..i] == items[..i];
    if i == last {
      assert items[..i + 1] == items;
    } else {
      FlatAt(items[..last], i);
      assert items[..last][..i] == items[..i] && items[..last][..i + 1] == items[..i + 1];
    }
  }

  /** The item at an offset can be read back through its entry. */
  lemma {:induction false} ReadItem(h: HStore, it: Item, e: HEntry)
    requires e.pos + EntrySize(e) <= |h.data| && EntryFits(e, it, e.pos)
    requires h.data[e.pos..e.pos + EntrySize(e)] == ItemBytes(it)
    ensures ItemAt(h, e) == it
  {
    var n := if it.val.Some? then e.vallen else 0;
    Slices(h.data, e.pos, e.keylen, n);
    var s, v := h.data[e.pos..e.pos + e.keylen + n], if it.val.Some? then it.val.value else [];
    assert s == it.key + v;
    assert s[..e.keylen] == it.key && s[e.keylen..] == v;
  }

  lemma {:induction false} Slices(d: str, p: nat, k: nat, n: nat)
    requires p + k + n <= |d|
    ensures var s := d[p..p + k + n]; d[p..p + k] == s[..k] && d[p + k..p + k + n] == s[k..]
  {
  }

  /** A layout determines the items. */
  lemma {:induction false} RepresentsItems(h: HStore, items: seq<Item>)
    requires Represents(h, items)
    ensures InBounds(h) && ItemsOf(h) == items
    ensures Proper(items) ==> WellFormed(h)
  {
    hide Flat, ItemBytes, ItemAt, Proper;
    forall i | 0 <= i < |items|
      ensures h.entries[i].pos + EntrySize(h.entries[i]) <= |h.data| && ItemAt(h, h.entries[i]) == items[i]
    {
      FlatAt(items, i);
      SizeOfEntry(h.entries[i], items[i], |Flat(items[..i])|);
      ReadItem(h, items[i], h.entries[i]);
    }
    assert ItemsOf(h) == items;
  }

  lemma {:induction false} SizeOfEntry(e: HEntry, it: Item, at: nat)
    requires EntryFits(e, it, at)
    ensures EntrySize(e) == |ItemBytes(it)|
  {
  }

  /** Copying an entry and its bytes to the end of another store. */
  lemma {:induction false} RepresentsSnoc(h: HStore, items: seq<Item>, e: HEntry, it: Item)
    requires Represents(h, items) && EntryFits(e, it, |h.data|)
    ensures Represents(HStore(h.entries + [e], h.data + ItemBytes(it)), items + [it])
  {
    hide ItemBytes, Flat;
    FlatSnoc(items, it);
    var all := items + [it];
    forall i | 0 <= i < |all|
      ensures EntryFits((h.entries + [e])[i], all[i], |Flat(all[..i])|)
    {
      assert all[..i] == if i < |items| then items[..i] else items;
    }
  }
}

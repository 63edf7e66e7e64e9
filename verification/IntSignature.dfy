/** The signature index: hashed bit vectors as keys, and why a search through them loses nothing. */
module IntSignature {
  import opened IntSets
  import opened BoolQuery
  import opened BoolExec
  import opened IntIndex

  const SIGLENBIT: nat := 63 * 4 * 8

  /** HASHVAL: the value as an unsigned 32-bit number, modulo the signature length. */
  function Hash(v: int): (h: nat)
    ensures h < SIGLENBIT
  {
    (v % 0x1_0000_0000) % SIGLENBIT
  }

  ghost function Unsigned32(v: int): int { if v < 0 then v + 0x1_0000_0000 else v }

  /** The hash of a 32-bit value is what is left of it, taken as unsigned, after whole signatures. */
  lemma {:induction false} HashIs(v: int)
    requires -0x8000_0000 <= v < 0x8000_0000
    ensures exists q: nat :: Unsigned32(v) == q * SIGLENBIT + Hash(v)
  {
    var u := Unsigned32(v);
    assert v % 0x1_0000_0000 == u;
    var q: nat := u / SIGLENBIT;
    assert u == q * SIGLENBIT + Hash(v);
  }

  /** GISTTYPE: a signature, or the mark that all bits are set. */
  datatype Key = AllTrue | Sign(bits: seq<bool>)

  predicate IsKey(k: Key) {
    k.Sign? ==> |k.bits| == SIGLENBIT
  }

  predicate Bit(k: Key, b: nat)
    requires IsKey(k) && b < SIGLENBIT
  {
    k.AllTrue? || k.bits[b]
  }

  /** The bits of a set of elements. */
  ghost predicate SignOf(bits: seq<bool>, arr: seq<int>) {
    |bits| == SIGLENBIT && forall b :: 0 <= b < SIGLENBIT ==> (bits[b] <==> exists v :: v in arr && Hash(v) == b)
  }

  /** A key with a bit for every element. */
  ghost predicate Covers(k: Key, A: set<int>) {
    IsKey(k) && forall v :: v in A ==> Bit(k, Hash(v))
  }

  /** HASH over all elements: gensign, and the leaf case of g_intbig_compress. */
  method MakeSign(arr: seq<int>) returns (sign: array<bool>)
    ensures fresh(sign) && sign.Length == SIGLENBIT && SignOf(sign[..], arr)
  {
    hide Hash;
    sign := new bool[SIGLENBIT](_ => false);
    for i := 0 to |arr|
      invariant forall b :: 0 <= b < SIGLENBIT ==> (sign[b] <==> exists j :: 0 <= j < i && Hash(arr[j]) == b)
    {
      sign[Hash(arr[i])] := true;
    }
    SignFromIndices(sign[..], arr);
  }

  lemma {:induction false} SignFromIndices(bits: seq<bool>, arr: seq<int>)
    requires |bits| == SIGLENBIT
    requires forall b :: 0 <= b < SIGLENBIT ==> (bits[b] <==> exists j :: 0 <= j < |arr| && Hash(arr[j]) == b)
    ensures SignOf(bits, arr)
  {
    hide Hash;
    forall b | 0 <= b < SIGLENBIT ensures bits[b] <==> exists v :: v in arr && Hash(v) == b {
      if bits[b] {
        var j :| 0 <= j < |arr| && Hash(arr[j]) == b;
        assert arr[j] in arr;
      }
      if v :| v in arr && Hash(v) == b {
        var j :| 0 <= j < |arr| && arr[j] == v;
        assert Hash(arr[j]) == b;
      }
    }
  }

  /** g_intbig_compress of an inner key: a full signature becomes the mark. */
  method CompressKey(k: Key) returns (r: Key)
    requires IsKey(k)
    ensures IsKey(r) && forall b :: 0 <= b < SIGLENBIT ==> Bit(r, b) == Bit(k, b)
    ensures r.AllTrue? <==> forall b :: 0 <= b < SIGLENBIT ==> Bit(k, b)
  {
    if k.AllTrue? {
      return k;
    }
    for i := 0 to SIGLENBIT
      invariant forall b :: 0 <= b < i ==> k.bits[b]
    {
      if !k.bits[i] {
        assert !Bit(k, i);
        return k;
      }
    }
    return AllTrue;
  }

  /** unionkey: ORs a signature into the base; 1 when everything is set. */
  method UnionKey(base: array<bool>, add: Key) returns (all: bool)
    requires base.Length == SIGLENBIT && IsKey(add)
    modifies base
    ensures all <==> add.AllTrue?
    ensures !all ==> forall b :: 0 <= b < SIGLENBIT ==> base[b] == (old(base[b]) || add.bits[b])
  {
    if add.AllTrue? {
      return true;
    }
    for i := 0 to SIGLENBIT
      invariant forall b :: 0 <= b < i ==> base[b] == (old(base[b]) || add.bits[b])
      invariant forall b :: i <= b < SIGLENBIT ==> base[b] == old(base[b])
    {
      base[i] := base[i] || add.bits[i];
    }
    return false;
  }

  /** g_intbig_union: a bit is set exactly when some entry sets it. */
  method UnionKeys(entries: seq<Key>) returns (r: Key)
    requires forall i :: 0 <= i < |entries| ==> IsKey(entries[i])
    ensures IsKey(r)
    ensures forall b :: 0 <= b < SIGLENBIT ==> (Bit(r, b) <==> exists i :: 0 <= i < |entries| && Bit(entries[i], b))
  {
    var base := new bool[SIGLENBIT](_ => false);
    for i := 0 to |entries|
      invariant forall b :: 0 <= b < SIGLENBIT ==> (base[b] <==> exists k :: 0 <= k < i && Bit(entries[k], b))
    {
      ghost var was := base[..];
      var all := UnionKey(base, entries[i]);
      if all {
        assert forall b :: 0 <= b < SIGLENBIT ==> Bit(entries[i], b);
        return AllTrue;
      }
      assert forall b :: 0 <= b < SIGLENBIT ==> base[b] == (was[b] || Bit(entries[i], b));
    }
    return Sign(base[..]);
  }

  // ---- The consistency test -----------------------------------------------

  /** _intbig_overlap. */
  method SignOverlap(k: Key, query: seq<int>) returns (res: bool)
    requires IsKey(k)
    ensures res <==> exists v :: v in query && Bit(k, Hash(v))
  {
    hide Hash;
    for i := 0 to |query|
      invariant forall j :: 0 <= j < i ==> !Bit(k, Hash(query[j]))
    {
      if Bit(k, Hash(query[i])) {
        assert query[i] in query;
        return true;
      }
    }
    return false;
  }

  /** _intbig_contains. */
  method SignContains(k: Key, query: seq<int>) returns (res: bool)
    requires IsKey(k)
    ensures res <==> forall v :: v in query ==> Bit(k, Hash(v))
  {
    hide Hash;
    for i := 0 to |query|
      invariant forall j :: 0 <= j < i ==> Bit(k, Hash(query[j]))
    {
      if !Bit(k, Hash(query[i])) {
        assert query[i] in query;
        return false;
      }
    }
    return true;
  }

  /** What g_intbig_consistent must not miss: a match of an array the key was made for. */
  ghost predicate Possible(k: Key, leaf: bool, A: set<int>) {
    Covers(k, A) && (leaf ==> k.Sign? && exists arr :: ToSet(arr) == A && SignOf(k.bits, arr))
  }

  /** Every bit of the key belongs to some element of the query. */
  ghost predicate BitsWithin(bits: seq<bool>, query: seq<int>) {
    |bits| == SIGLENBIT && forall b :: 0 <= b < SIGLENBIT && bits[b] ==> exists v :: v in query && Hash(v) == b
  }

  ghost predicate SomeBit(k: Key, query: seq<int>)
    requires IsKey(k)
  {
    exists v :: v in query && Bit(k, Hash(v))
  }

  ghost predicate EveryBit(k: Key, query: seq<int>)
    requires IsKey(k)
  {
    forall v :: v in query ==> Bit(k, Hash(v))
  }

  /** What g_intbig_consistent answers for the array strategies. */
  ghost predicate BigTest(k: Key, query: seq<int>, st: Strategy, leaf: bool)
    requires IsKey(k)
  {
    k.AllTrue? || (query != [] &&
      match st
      case Overlapping => SomeBit(k, query)
      case Containing => EveryBit(k, query)
      case Same => if leaf then SignOf(k.bits, query) else EveryBit(k, query)
      case ContainedBy => if leaf then BitsWithin(k.bits, query) else SomeBit(k, query))
  }

  /** g_intbig_consistent for the array strategies. */
  method BigConsistent(k: Key, query: seq<int>, st: Strategy, leaf: bool) returns (res: bool)
    requires IsKey(k)
    ensures res <==> BigTest(k, query, st, leaf)
  {
    hide Hash, SignOf, IsKey, BitsWithin;
    if k.AllTrue? {
      return true;
    }
    if query == [] {
      return false;
    }
    match st
    case Overlapping =>
      res := SignOverlap(k, query);
    case Containing =>
      res := SignContains(k, query);
    case Same =>
      if leaf {
        var qp := MakeSign(query);
        res := k.bits == qp[..];
        KeyBits(k);
        SignUnique(k.bits, qp[..], query);
      } else {
        res := SignContains(k, query);
      }
    case ContainedBy =>
      if leaf {
        var qp := MakeSign(query);
        KeyBits(k);
        res := SubSign(k, qp);
        WithinSign(k.bits, qp[..], query);
      } else {
        res := SignOverlap(k, query);
      }
  }

  lemma {:induction false} SignUnique(bits: seq<bool>, qp: seq<bool>, query: seq<int>)
    requires |bits| == SIGLENBIT && SignOf(qp, query)
    ensures SignOf(bits, query) <==> bits == qp
  {
    hide Hash;
    if SignOf(bits, query) {
      forall b | 0 <= b < SIGLENBIT ensures bits[b] == qp[b] {
      }
    }
  }

  lemma {:induction false} WithinSign(bits: seq<bool>, qp: seq<bool>, query: seq<int>)
    requires |bits| == SIGLENBIT && SignOf(qp, query)
    ensures BitsWithin(bits, query) <==> forall b :: 0 <= b < SIGLENBIT && bits[b] ==> qp[b]
  {
    hide Hash;
  }

  /** No key that could stand for a matching array is rejected. */
  lemma {:induction false} BigTestIsSound(k: Key, query: seq<int>, st: Strategy, leaf: bool, A: set<int>)
    requires IsKey(k) && Possible(k, leaf, A) && query != [] && Holds(st, A, ToSet(query))
    ensures BigTest(k, query, st, leaf)
  {
    hide Hash, SignOf, Covers, Holds;
    match st
    case Overlapping => SharedBit(k, A, query, st);
    case Containing => AllBits(k, A, query, st);
    case Same =>
      if leaf {
        var arr :| ToSet(arr) == A && SignOf(k.bits, arr);
        SameSign(k.bits, arr, query);
      } else {
        AllBits(k, A, query, st);
      }
    case ContainedBy =>
      if leaf {
        var arr :| ToSet(arr) == A && SignOf(k.bits, arr);
        FewerBits(k.bits, arr, query);
      } else {
        SharedBit(k, A, query, st);
      }
  }

  // ---- And rejects every other --------------------------------------------

  /** A number below the signature length hashes to itself. */
  lemma {:induction false} HashSmall(b: nat)
    requires b < SIGLENBIT
    ensures Hash(b) == b
  {
  }

  ghost predicate NoBits(k: Key) {
    k.Sign? && forall b :: 0 <= b < |k.bits| ==> !k.bits[b]
  }

  /** One element for every set bit below n, and no others. */
  ghost predicate Picks(bits: seq<bool>, n: nat, arr: seq<int>) {
    && n <= |bits| == SIGLENBIT && (forall v :: v in arr ==> bits[Hash(v)])
    && forall b :: 0 <= b < n && bits[b] ==> exists v :: v in arr && Hash(v) == b
  }

  lemma {:induction false} PickOne(bits: seq<bool>, n: nat, arr: seq<int>, v: int)
    requires Picks(bits, n, arr) && n < |bits| && bits[n] && Hash(v) == n
    ensures Picks(bits, n + 1, arr + [v])
  {
    hide Hash;
    var more := arr + [v];
    forall b | 0 <= b < n + 1 && bits[b] ensures exists w :: w in more && Hash(w) == b {
      if b == n {
        assert v in more && Hash(v) == b;
      } else {
        var w :| w in arr && Hash(w) == b;
        assert w in more;
      }
    }
  }

  /** Elements with exactly the bits of a signature: numbers, or elements of the query when its bits suffice. */
  lemma {:induction false} Pick(bits: seq<bool>, n: nat, query: seq<int>, within: bool) returns (arr: seq<int>)
    requires n <= |bits| == SIGLENBIT && (within ==> BitsWithin(bits, query))
    ensures Picks(bits, n, arr) && (within ==> forall v :: v in arr ==> v in query)
  {
    hide Hash;
    arr := [];
    if n > 0 {
      arr := Pick(bits, n - 1, query, within);
      if bits[n - 1] {
        var v := n - 1;
        HashSmall(v);
        if within {
          v :| v in query && Hash(v) == n - 1;
        }
        PickOne(bits, n - 1, arr, v);
        arr := arr + [v];
      }
    }
  }

  lemma {:induction false} PickedSign(bits: seq<bool>, arr: seq<int>, query: seq<int>)
    requires Picks(bits, SIGLENBIT, arr) && forall v :: v in query ==> bits[Hash(v)]
    ensures SignOf(bits, arr + query)
  {
    hide Hash;
    forall b | 0 <= b < SIGLENBIT ensures bits[b] <==> exists v :: v in arr + query && Hash(v) == b {
      if bits[b] {
        var v :| v in arr && Hash(v) == b;
        assert v in arr + query;
      }
    }
  }

  /** An array the leaf key was made for. */
  lemma {:induction false} LeafPossible(k: Key, arr: seq<int>)
    requires k.Sign? && SignOf(k.bits, arr)
    ensures Possible(k, true, ToSet(arr))
  {
    hide Hash, SignOf;
    SignCovers(k.bits, arr);
  }

  /** What a test accepts on an inner key is the match of elements the key covers. */
  lemma {:induction false} InnerWitness(k: Key, query: seq<int>, st: Strategy) returns (A: set<int>)
    requires IsKey(k) && k.Sign? && query != [] && BigTest(k, query, st, false)
    ensures Possible(k, false, A) && Holds(st, A, ToSet(query))
  {
    hide Hash;
    assert query[0] in ToSet(query);
    if st == Overlapping || st == ContainedBy {
      var v :| v in query && Bit(k, Hash(v));
      A := {v};
      assert v in A * ToSet(query);
    } else {
      A := ToSet(query);
    }
  }

  /** And on a leaf key of an array the key can have been made for, unless it asks for being contained and the key is empty. */
  lemma {:induction false} LeafWitness(k: Key, query: seq<int>, st: Strategy) returns (A: set<int>)
    requires IsKey(k) && k.Sign? && query != [] && BigTest(k, query, st, true) && !(st == ContainedBy && NoBits(k))
    ensures Possible(k, true, A) && Holds(st, A, ToSet(query))
  {
    hide Hash, SignOf, Possible;
    assert query[0] in ToSet(query);
    var arr;
    match st {
      case Overlapping =>
        var v :| v in query && Bit(k, Hash(v));
        arr := Pick(k.bits, SIGLENBIT, query, false);
        PickedSign(k.bits, arr, [v]);
        arr := arr + [v];
        assert v in ToSet(arr) * ToSet(query);
      case Containing =>
        arr := Pick(k.bits, SIGLENBIT, query, false);
        PickedSign(k.bits, arr, query);
        arr := arr + query;
        assert query[0] in ToSet(arr) && ToSet(query) <= ToSet(arr);
      case Same =>
        arr := query;
      case ContainedBy =>
        arr := Pick(k.bits, SIGLENBIT, query, true);
        PickedSign(k.bits, arr, []);
        assert arr + [] == arr;
        var b :| 0 <= b < |k.bits| && k.bits[b];
        var v :| v in arr && Hash(v) == b;
        assert v in ToSet(arr);
        forall x | x in ToSet(arr) ensures x in ToSet(query) {
          assert x in arr;
        }
    }
    LeafPossible(k, arr);
    A := ToSet(arr);
  }

  lemma {:induction false} EmptyLeaf(k: Key, A: set<int>)
    requires NoBits(k) && Possible(k, true, A)
    ensures A == {}
  {
    hide Hash;
    if A != {} {
      var x := Member(A);
      assert false;
    }
  }

  /** A signature key passes the test exactly when it could stand for an array, or for arrays below it, that the operator
      accepts; only a leaf key without any bit passes for being contained although it stands for the empty array alone. */
  lemma {:induction false} BigTestExactly(k: Key, query: seq<int>, st: Strategy, leaf: bool)
    requires IsKey(k) && k.Sign? && query != []
    ensures BigTest(k, query, st, leaf) <==>
      (exists A :: Possible(k, leaf, A) && Holds(st, A, ToSet(query))) || (leaf && st == ContainedBy && NoBits(k))
    ensures leaf && st == ContainedBy && NoBits(k) ==> !exists A :: Possible(k, leaf, A) && Holds(st, A, ToSet(query))
  {
    hide Hash, Possible, BigTest, SignOf;
    if A :| Possible(k, leaf, A) && Holds(st, A, ToSet(query)) {
      BigTestIsSound(k, query, st, leaf, A);
    }
    if leaf && st == ContainedBy && NoBits(k) {
      EmptyPasses(k, query);
      forall A | Possible(k, leaf, A) ensures A == {} {
        EmptyLeaf(k, A);
      }
    } else if BigTest(k, query, st, leaf) {
      var A: set<int>;
      if leaf {
        A := LeafWitness(k, query, st);
      } else {
        A := InnerWitness(k, query, st);
      }
    }
  }

  lemma {:induction false} EmptyPasses(k: Key, query: seq<int>)
    requires IsKey(k) && NoBits(k) && query != []
    ensures BigTest(k, query, ContainedBy, true)
  {
  }

  /** No bit of the key outside the query's signature. */
  method SubSign(k: Key, qp: array<bool>) returns (res: bool)
    requires IsKey(k) && k.Sign? && qp.Length == SIGLENBIT
    ensures res <==> forall b :: 0 <= b < SIGLENBIT && k.bits[b] ==> qp[b]
  {
    for i := 0 to SIGLENBIT
      invariant forall b :: 0 <= b < i && k.bits[b] ==> qp[b]
    {
      if k.bits[i] && !qp[i] {
        return false;
      }
    }
    return true;
  }

  lemma {:induction false} KeyBits(k: Key)
    requires IsKey(k) && k.Sign?
    ensures |k.bits| == SIGLENBIT
  {
  }

  lemma {:induction false} SharedBit(k: Key, A: set<int>, query: seq<int>, st: Strategy)
    requires Covers(k, A) && Holds(st, A, ToSet(query)) && query != [] && (st == Overlapping || st == ContainedBy)
    ensures exists v :: v in query && Bit(k, Hash(v))
  {
    var x := Member(if st == Overlapping then A * ToSet(query) else A);
    assert x in query && Bit(k, Hash(x));
  }

  lemma {:induction false} AllBits(k: Key, A: set<int>, query: seq<int>, st: Strategy)
    requires Covers(k, A) && Holds(st, A, ToSet(query)) && (st == Containing || st == Same)
    ensures forall v :: v in query ==> Bit(k, Hash(v))
  {
    forall v | v in query ensures Bit(k, Hash(v)) {
      assert v in ToSet(query);
    }
  }

  lemma {:induction false} FewerBits(bits: seq<bool>, arr: seq<int>, query: seq<int>)
    requires SignOf(bits, arr) && Holds(ContainedBy, ToSet(arr), ToSet(query))
    ensures BitsWithin(bits, query)
  {
    hide Hash;
    forall b | 0 <= b < SIGLENBIT && bits[b] ensures exists v :: v in query && Hash(v) == b {
      var v :| v in arr && Hash(v) == b;
      assert v in ToSet(arr);
      assert v in query && Hash(v) == b;
    }
  }

  lemma {:induction false} SameSign(bits: seq<bool>, arr: seq<int>, query: seq<int>)
    requires SignOf(bits, arr) && Holds(Same, ToSet(arr), ToSet(query))
    ensures SignOf(bits, query)
  {
    hide Hash;
    forall v ensures v in arr <==> v in query {
      assert v in ToSet(arr) <==> v in ToSet(query);
    }
  }

  // ---- Boolean queries on signatures --------------------------------------

  /** signconsistent, with negations taken as true; a full key is always consistent. */
  function SignConsistent(items: seq<Item>, k: Key, ghost q: Query): bool
    requires IsQuery(items, q) && IsKey(k)
  {
    WholeQuery(items, q);
    k.AllTrue? ||
    Execute(items, |items| - 1, false, i => if 0 <= i < |items| then k.bits[Hash(items[i].node.val)] else false, q)
  }

  /** A query true on an array is not rejected by any signature that covers the array. */
  lemma {:induction false} SignNotRejected(items: seq<Item>, k: Key, q: Query, A: set<int>)
    requires IsQuery(items, q) && Covers(k, A) && Eval(q, x => x in A)
    ensures SignConsistent(items, k, q)
  {
    hide Hash, Exact, Execute;
    if k.Sign? {
      WholeQuery(items, q);
      var chk := i => if 0 <= i < |items| then k.bits[Hash(items[i].node.val)] else false;
      var more := (v: int) => k.bits[Hash(v)];
      ExecuteIsEval(items, |items| - 1, false, chk, q, more);
      LooseIsSound(q, x => x in A, more);
    }
  }

  /** signconsistent is the value of the query, negations taken as true, on the elements whose bits are set. */
  lemma {:induction false} SignConsistentIs(items: seq<Item>, k: Key, q: Query)
    requires IsQuery(items, q) && IsKey(k)
    ensures SignConsistent(items, k, q) <==> Loose(q, v => Bit(k, Hash(v)))
  {
    hide Hash, Exact, Execute;
    var has := (v: int) => Bit(k, Hash(v));
    if k.Sign? {
      WholeQuery(items, q);
      var chk := i => if 0 <= i < |items| then k.bits[Hash(items[i].node.val)] else false;
      ExecuteIsEval(items, |items| - 1, false, chk, q, has);
      LooseAgrees(q, has, v => Bit(k, Hash(v)));
    } else {
      LooseAll(q, v => Bit(k, Hash(v)));
    }
  }

  lemma {:induction false} LooseAgrees(q: Query, f: int -> bool, g: int -> bool)
    requires forall v :: f(v) == g(v)
    ensures Loose(q, f) == Loose(q, g)
  {
    match q
    case Val(v) =>
    case Not(p) =>
    case And(l, r) =>
      LooseAgrees(l, f, g);
      LooseAgrees(r, f, g);
    case Or(l, r) =>
      LooseAgrees(l, f, g);
      LooseAgrees(r, f, g);
  }

  lemma {:induction false} LooseAll(q: Query, has: int -> bool)
    requires forall v :: has(v)
    ensures Loose(q, has)
  {
    match q
    case Val(v) =>
    case Not(p) =>
    case And(l, r) =>
      LooseAll(l, has);
      LooseAll(r, has);
    case Or(l, r) =>
      LooseAll(l, has);
  }

  /** The values of a query with a property. */
  ghost function ValuesWith(q: Query, has: int -> bool): set<int> {
    match q
    case Val(v) => if has(v) then {v} else {}
    case Not(p) => {}
    case And(l, r) => ValuesWith(l, has) + ValuesWith(r, has)
    case Or(l, r) => ValuesWith(l, has) + ValuesWith(r, has)
  }

  predicate NoNegation(q: Query) {
    match q
    case Val(v) => true
    case Not(p) => false
    case And(l, r) => NoNegation(l) && NoNegation(r)
    case Or(l, r) => NoNegation(l) && NoNegation(r)
  }

  lemma {:induction false} WithHas(q: Query, has: int -> bool)
    ensures forall v :: v in ValuesWith(q, has) ==> has(v)
  {
    match q
    case Val(v) =>
    case Not(p) =>
    case And(l, r) =>
      WithHas(l, has);
      WithHas(r, has);
    case Or(l, r) =>
      WithHas(l, has);
      WithHas(r, has);
  }

  /** Without negations a query loosely true is true on the values it is true for. */
  lemma {:induction false} TrueOnValues(q: Query, has: int -> bool, B: set<int>)
    requires NoNegation(q) && Loose(q, has) && ValuesWith(q, has) <= B
    ensures Eval(q, x => x in B)
  {
    match q
    case Val(v) =>
    case And(l, r) =>
      TrueOnValues(l, has, B);
      TrueOnValues(r, has, B);
    case Or(l, r) =>
      if Loose(l, has) {
        TrueOnValues(l, has, B);
      } else {
        TrueOnValues(r, has, B);
      }
  }

  /** A signature is consistent with a query without negations exactly when it can stand for an array on which the query
      is true. */
  lemma {:induction false} SignBoolExactly(items: seq<Item>, k: Key, q: Query)
    requires IsQuery(items, q) && IsKey(k) && NoNegation(q)
    ensures SignConsistent(items, k, q) <==> exists A :: Covers(k, A) && Eval(q, x => x in A)
  {
    hide Hash, SignConsistent, IsQuery, NoNegation, IsKey;
    if SignConsistent(items, k, q) {
      SignConsistentIs(items, k, q);
      var has := (v: int) => Bit(k, Hash(v));
      LooseAgrees(q, v => Bit(k, Hash(v)), has);
      var A := ValuesWith(q, has);
      WithHas(q, has);
      TrueOnValues(q, has, A);
      assert Covers(k, A);
    }
    if A :| Covers(k, A) && Eval(q, x => x in A) {
      SignNotRejected(items, k, q, A);
    }
  }

  /** Keys above an array: its own signature, then unions and compressions. */
  lemma {:induction false} CoversUp(k: Key, r: Key, A: set<int>)
    requires Covers(k, A) && IsKey(r) && forall b :: 0 <= b < SIGLENBIT && Bit(k, b) ==> Bit(r, b)
    ensures Covers(r, A)
  {
    hide Hash;
  }

  lemma {:induction false} SignCovers(bits: seq<bool>, arr: seq<int>)
    requires SignOf(bits, arr)
    ensures Covers(Sign(bits), ToSet(arr))
  {
    hide Hash;
    forall v | v in ToSet(arr) ensures Bit(Sign(bits), Hash(v)) {
      assert v in arr && Hash(v) == Hash(v);
    }
  }

  /** A tree of signatures: leaves hashed from their arrays, every key with the bits of the keys below it. */
  ghost predicate Signed(t: Tree<Key>)
    decreases t
  {
    match t
    case Leaf(k, arr) => k.Sign? && SignOf(k.bits, arr)
    case Node(k, children) =>
      && IsKey(k)
      && forall i :: 0 <= i < |children| ==>
           && Signed(children[i]) && IsKey(children[i].key)
           && forall b :: 0 <= b < SIGLENBIT && Bit(children[i].key, b) ==> Bit(k, b)
  }

  /** Every key covers every array below it, so no ancestor of a match is rejected by either test. */
  lemma {:induction false} SignedCovers(t: Tree<Key>, j: nat)
    requires Signed(t) && j < |Arrays(t)|
    ensures Covers(t.key, ToSet(Arrays(t)[j]))
    decreases t, 0
  {
    hide Covers, Bit, SignOf, ToSet;
    match t
    case Leaf(k, arr) => SignCovers(k.bits, arr);
    case Node(k, children) => SignedCover(t, children, j);
  }

  lemma {:induction false} SignedCover(t: Tree<Key>, ts: seq<Tree<Key>>, j: nat)
    requires IsKey(t.key) && j < |ArraysOf(ts)|
    requires forall i :: 0 <= i < |ts| ==>
      && ts[i] < t && Signed(ts[i]) && IsKey(ts[i].key)
      && forall b :: 0 <= b < SIGLENBIT && Bit(ts[i].key, b) ==> Bit(t.key, b)
    ensures Covers(t.key, ToSet(ArraysOf(ts)[j]))
    decreases t, 0, |ts|
  {
    hide Covers, Bit, ToSet, Signed;
    if j < |Arrays(ts[0])| {
      SignedCovers(ts[0], j);
      CoversUp(ts[0].key, t.key, ToSet(Arrays(ts[0])[j]));
    } else {
      SignedCover(t, ts[1..], j - |Arrays(ts[0])|);
    }
  }

  /** A search of a signature tree finds every match, whatever the test, as long as it accepts what is possible. */
  lemma {:induction false} SignedSearch(t: Tree<Key>, test: (Key, bool) -> bool, exact: set<int> -> bool, j: nat)
    requires Signed(t) && j < |Arrays(t)| && exact(ToSet(Arrays(t)[j]))
    requires forall k, leaf, A :: Possible(k, leaf, A) && exact(A) ==> test(k, leaf)
    ensures Arrays(t)[j] in Search(t, test)
    decreases t, 0
  {
    hide Covers, SignOf, ToSet;
    SignedCovers(t, j);
    var A := ToSet(Arrays(t)[j]);
    match t
    case Leaf(k, arr) =>
      assert Possible(k, true, A);
    case Node(k, children) =>
      assert Possible(k, false, A);
      SignedSearchAll(t, children, test, exact, j);
  }

  lemma {:induction false} SignedSearchAll(t: Tree<Key>, ts: seq<Tree<Key>>, test: (Key, bool) -> bool, exact: set<int> -> bool, j: nat)
    requires j < |ArraysOf(ts)| && exact(ToSet(ArraysOf(ts)[j]))
    requires forall i :: 0 <= i < |ts| ==> ts[i] < t && Signed(ts[i])
    requires forall k, leaf, A :: Possible(k, leaf, A) && exact(A) ==> test(k, leaf)
    ensures ArraysOf(ts)[j] in SearchAll(ts, test)
    decreases t, 0, |ts|
  {
    hide Possible, ToSet, Signed;
    if j < |Arrays(ts[0])| {
      SignedSearch(ts[0], test, exact, j);
    } else {
      SignedSearchAll(t, ts[1..], test, exact, j - |Arrays(ts[0])|);
    }
  }

  /** Boolean search through signatures finds every array on which the query is true. */
  lemma {:induction false} SignedBoolSearch(t: Tree<Key>, items: seq<Item>, q: Query, j: nat)
    requires Signed(t) && IsQuery(items, q) && j < |Arrays(t)|
    requires var A := ToSet(Arrays(t)[j]); Eval(q, x => x in A)
    ensures Arrays(t)[j] in Search(t, (k, leaf) => IsKey(k) && SignConsistent(items, k, q))
  {
    hide Signed, Eval, SignConsistent, IsQuery, Search, Arrays;
    var test := (k: Key, leaf: bool) => IsKey(k) && SignConsistent(items, k, q);
    var exact := (A: set<int>) => Eval(q, x => x in A);
    forall k, leaf, A | Possible(k, leaf, A) && exact(A) ensures test(k, leaf) {
      SignNotRejected(items, k, q, A);
    }
    SignedSearch(t, test, exact, j);
  }

  /** Search through signatures finds every array the operator accepts, for every query that is not empty. */
  lemma {:induction false} SignedArraySearch(t: Tree<Key>, query: seq<int>, st: Strategy, j: nat)
    requires Signed(t) && query != [] && j < |Arrays(t)| && Holds(st, ToSet(Arrays(t)[j]), ToSet(query))
    ensures Arrays(t)[j] in Search(t, (k, leaf) => IsKey(k) && BigTest(k, query, st, leaf))
  {
    hide Signed, Holds, BigTest, Search, Arrays, Covers, SignOf;
    var test := (k: Key, leaf: bool) => IsKey(k) && BigTest(k, query, st, leaf);
    var exact := (A: set<int>) => Holds(st, A, ToSet(query));
    forall k, leaf, A | Possible(k, leaf, A) && exact(A) ensures test(k, leaf) {
      CoversKey(k, A);
      BigTestIsSound(k, query, st, leaf, A);
    }
    SignedSearch(t, test, exact, j);
  }

  lemma {:induction false} CoversKey(k: Key, A: set<int>)
    requires Covers(k, A)
    ensures IsKey(k)
  {
  }
}

/** On queries whose values are all different, reading back keeps the meaning exactly when the query is clean. */
module BoolDistinct {
  import opened BoolQuery
  import opened BoolText

  function Values(q: Query): set<int> {
    match q
    case Val(v) => {v}
    case Not(p) => Values(p)
    case And(l, r) => Values(l) + Values(r)
    case Or(l, r) => Values(l) + Values(r)
  }

  predicate DistinctValues(q: Query) {
    match q
    case Val(v) => true
    case Not(p) => DistinctValues(p)
    case And(l, r) => DistinctValues(l) && DistinctValues(r) && Values(l) !! Values(r)
    case Or(l, r) => DistinctValues(l) && DistinctValues(r) && Values(l) !! Values(r)
  }

  /** Which values to take so that every part of q has the value b, up to negations on the way. */
  function Forcing(q: Query, b: bool): (s: set<int>)
    ensures s <= Values(q)
  {
    match q
    case Val(v) => if b then {v} else {}
    case Not(p) => Forcing(p, !b)
    case And(l, r) => Forcing(l, b) + Forcing(r, b)
    case Or(l, r) => Forcing(l, b) + Forcing(r, b)
  }

  ghost predicate AllAre(c: seq<Query>, b: bool, has: int -> bool) {
    forall i :: 0 <= i < |c| ==> Eval(c[i], has) == b
  }

  lemma {:induction false} AllAreSnoc(c: seq<Query>, q: Query, b: bool, has: int -> bool)
    requires AllAre(c, b, has) && Eval(q, has) == b
    ensures AllAre(c + [q], b, has)
  {
  }

  lemma {:induction false} ConjAre(c: seq<Query>, b: bool, has: int -> bool)
    requires c != [] && AllAre(c, b, has)
    ensures Eval(Conj(c), has) == b && EvalAll(c, has) == b
  {
    ConjMeans(c, has);
    assert Eval(c[0], has) == b;
  }

  lemma {:induction false} OneIs(q: Query, b: bool, has: int -> bool)
    requires Eval(q, has) == b
    ensures AllAre([q], b, has)
  {
  }

  /** What has tells on the values of q. */
  ghost predicate Takes(has: int -> bool, q: Query, s: set<int>) {
    forall v :: v in Values(q) ==> has(v) == (v in s)
  }

  lemma {:induction false} TakesParts(has: int -> bool, q: Query, l: Query, r: Query, s: set<int>, t: set<int>)
    requires (q == And(l, r) || q == Or(l, r)) && DistinctValues(q) && s <= Values(l) && t <= Values(r)
    requires Takes(has, q, s + t)
    ensures Takes(has, l, s) && Takes(has, r, t)
  {
  }

  lemma {:induction false} Forced(q: Query, b: bool, has: int -> bool)
    requires DistinctValues(q) && Takes(has, q, Forcing(q, b))
    ensures Eval(q, has) == b
  {
    match q
    case Val(v) =>
    case Not(p) => Forced(p, !b, has);
    case And(l, r) =>
      TakesParts(has, q, l, r, Forcing(l, b), Forcing(r, b));
      Forced(l, b, has);
      Forced(r, b, has);
    case Or(l, r) =>
      TakesParts(has, q, l, r, Forcing(l, b), Forcing(r, b));
      Forced(l, b, has);
      Forced(r, b, has);
  }

  /** Forcing also works on what is read back, clean or not. */
  lemma {:induction false} ForcedFeed(q: Query, c: seq<Query>, b: bool, has: int -> bool)
    requires DistinctValues(q) && Takes(has, q, Forcing(q, b)) && AllAre(c, b, has)
    ensures AllAre(Feed(q, c), b, has)
    decreases q, if q.Or? then 1 else 0
  {
    hide AllAre, Takes, Conj;
    Forced(q, b, has);
    match q
    case Val(v) =>
      AllAreSnoc(c, q, b, has);
      ConjAre(c + [q], b, has);
      OneIs(Conj(c + [q]), b, has);
    case Not(p) =>
      AllAreSnoc(c, q, b, has);
      ConjAre(c + [q], b, has);
      OneIs(Conj(c + [q]), b, has);
      if !p.Val? {
        NotTakes(has, p, Forcing(p, !b));
        ForcedRead(p, !b, has);
        AllAreSnoc(c, Not(Read(p)), b, has);
      }
    case And(l, r) =>
      TakesParts(has, q, l, r, Forcing(l, b), Forcing(r, b));
      ForcedFeed(l, c, b, has);
      ForcedFeed(r, Feed(l, c), b, has);
    case Or(l, r) =>
      var u := Read(q);
      ForcedRead(q, b, has);
      OneIs(u, b, has);
      if c != [] {
        LastAnd(c, u, b, has);
      }
  }

  lemma {:induction false} NotTakes(has: int -> bool, p: Query, s: set<int>)
    requires Takes(has, Not(p), s)
    ensures Takes(has, p, s)
  {
  }

  lemma {:induction false} LastAnd(c: seq<Query>, u: Query, b: bool, has: int -> bool)
    requires c != [] && AllAre(c, b, has) && Eval(u, has) == b
    ensures AllAre(c[..|c| - 1] + [And(c[|c| - 1], u)], b, has)
  {
  }

  lemma {:induction false} JoinedAre(c: seq<Query>, b: bool, has: int -> bool)
    requires |c| >= 2 && AllAre(c, b, has)
    ensures |JoinedByOr(c)| == |c| - 1 && AllAre(JoinedByOr(c), b, has)
  {
  }

  lemma {:induction false} NoneAre(b: bool, has: int -> bool)
    ensures AllAre([], b, has)
  {
  }

  lemma {:induction false} ForcedRead(q: Query, b: bool, has: int -> bool)
    requires DistinctValues(q) && Takes(has, q, Forcing(q, b))
    ensures Eval(Read(q), has) == b
    decreases q, if q.Or? then 0 else 1
  {
    hide AllAre, Takes, Conj, JoinedByOr;
    NoneAre(b, has);
    if !q.Or? {
      ForcedFeed(q, [], b, has);
      ConjAre(Feed(q, []), b, has);
    } else {
      var c := Feed(q.l, []);
      TakesParts(has, q, q.l, q.r, Forcing(q.l, b), Forcing(q.r, b));
      ForcedFeed(q.l, [], b, has);
      if |c| == 1 {
        ForcedFeed(q.r, [], b, has);
        ConjAre(Feed(q.r, []), b, has);
        ConjAre(c, b, has);
        ConjOne(c);
      } else {
        JoinedAre(c, b, has);
        ForcedFeed(q.r, JoinedByOr(c), b, has);
        ConjAre(Feed(q.r, JoinedByOr(c)), b, has);
      }
    }
  }

  lemma {:induction false} ConjOne(c: seq<Query>)
    requires |c| == 1
    ensures Conj(c) == c[0]
  {
  }

  // ---- Telling an unclean query from what is read -------------------------

  /** The operands pending before and those q adds hold independently. */
  lemma {:induction false} FeedSplits(q: Query, c: seq<Query>, has: int -> bool)
    ensures EvalAll(Feed(q, c), has) == (EvalAll(c, has) && EvalAll(Feed(q, []), has))
    decreases q
  {
    hide EvalAll, Conj, Read;
    EvalAllNone(has);
    match q
    case Val(v) => UnitSplits(q, c, has);
    case Not(p) =>
      UnitSplits(q, c, has);
      EvalAllSnoc(c, Not(Read(p)), has);
      EvalAllSnoc([], Not(Read(p)), has);
    case And(l, r) =>
      FeedSplits(l, c, has);
      FeedSplits(r, Feed(l, c), has);
      FeedSplits(r, Feed(l, []), has);
    case Or(l, r) =>
      var u := Read(q);
      EvalAllOne(u, has);
      if c != [] {
        var d, x := c[..|c| - 1], c[|c| - 1];
        assert c == d + [x];
        EvalAllSnoc(d, x, has);
        EvalAllSnoc(d, And(x, u), has);
      }
  }

  lemma {:induction false} UnitSplits(q: Query, c: seq<Query>, has: int -> bool)
    ensures EvalAll([Conj(c + [q])], has) == (EvalAll(c, has) && EvalAll([Conj([] + [q])], has))
  {
    EvalAllSnoc(c, q, has);
    ConjMeans(c + [q], has);
    EvalAllOne(Conj(c + [q]), has);
    EvalAllSnoc([], q, has);
    EvalAllNone(has);
    ConjMeans([] + [q], has);
    EvalAllOne(Conj([] + [q]), has);
  }

  lemma {:induction false} FeedIsRead(q: Query, has: int -> bool)
    ensures EvalAll(Feed(q, []), has) == Eval(Read(q), has)
  {
    if q.Or? {
      EvalAllOne(Read(q), has);
    } else {
      ConjMeans(Feed(q, []), has);
    }
  }

  /** Values on which an unclean query and what is read differ. */
  function Telling(q: Query): (s: set<int>)
    requires !Clean(q)
    ensures s <= Values(q)
  {
    match q
    case Not(p) => Telling(p)
    case And(l, r) =>
      if !Clean(l) then Telling(l) + Forcing(r, true) else Forcing(l, true) + Telling(r)
    case Or(l, r) =>
      if Pend(l, 0) > 0 then Forcing(l, false) + Forcing(r, true)
      else if !Clean(l) then Telling(l) + Forcing(r, false)
      else Forcing(l, false) + Telling(r)
  }

  /** A query that is not clean is read back with another meaning, on the values that tell. */
  lemma {:induction false} Differs(q: Query, has: int -> bool)
    requires DistinctValues(q) && !Clean(q) && Takes(has, q, Telling(q))
    ensures Eval(Read(q), has) != Eval(q, has)
  {
    hide Takes, EvalAll, Conj, AllAre;
    EvalAllNone(has);
    NoneAre(true, has);
    NoneAre(false, has);
    match q
    case Not(p) =>
      NotTakes(has, p, Telling(p));
      Differs(p, has);
      FeedIsRead(q, has);
      assert [] + [Not(Read(p))] == [Not(Read(p))];
      EvalAllOne(Not(Read(p)), has);
    case And(l, r) =>
      FeedIsRead(q, has);
      FeedIsRead(l, has);
      FeedIsRead(r, has);
      FeedSplits(r, Feed(l, []), has);
      if !Clean(l) {
        TakesParts(has, q, l, r, Telling(l), Forcing(r, true));
        Differs(l, has);
        Forced(r, true, has);
        ForcedRead(r, true, has);
      } else {
        TakesParts(has, q, l, r, Forcing(l, true), Telling(r));
        Differs(r, has);
        Forced(l, true, has);
        ForcedRead(l, true, has);
      }
    case Or(l, r) => OrDiffers(q, has);
  }

  lemma {:induction false} OrDiffers(q: Query, has: int -> bool)
    requires q.Or? && DistinctValues(q) && !Clean(q) && Takes(has, q, Telling(q))
    ensures Eval(Read(q), has) != Eval(q, has)
    decreases q, 0
  {
    hide Takes, EvalAll, Conj, AllAre, JoinedByOr;
    var l, r := q.l, q.r;
    var c := Feed(l, []);
    FeedPend(l, []);
    NoneAre(false, has);
    FeedIsRead(l, has);
    FeedIsRead(r, has);
    if Pend(l, 0) > 0 {
      TakesParts(has, q, l, r, Forcing(l, false), Forcing(r, true));
      Forced(r, true, has);
      ForcedFeed(l, [], false, has);
      JoinedAre(c, false, has);
      ConjAre(JoinedByOr(c), false, has);
      FeedSplits(r, JoinedByOr(c), has);
      ConjMeans(Feed(r, JoinedByOr(c)), has);
    } else {
      ConjOne(c);
      ConjMeans(c, has);
      ConjMeans(Feed(r, []), has);
      if !Clean(l) {
        TakesParts(has, q, l, r, Telling(l), Forcing(r, false));
        Differs(l, has);
        Forced(r, false, has);
        ForcedRead(r, false, has);
      } else {
        TakesParts(has, q, l, r, Forcing(l, false), Telling(r));
        Differs(r, has);
        Forced(l, false, has);
        ForcedRead(l, false, has);
      }
    }
  }

  /** With different values everywhere, a query is read back with its meaning exactly when it is clean. */
  lemma {:induction false} CleanExactly(q: Query)
    requires DistinctValues(q)
    ensures Clean(q) <==> forall has :: Eval(Read(q), has) == Eval(q, has)
  {
    hide Eval, Read, Clean;
    if Clean(q) {
      forall has: int -> bool ensures Eval(Read(q), has) == Eval(q, has) {
        ReadMeans(q, has);
      }
    } else {
      var s := Telling(q);
      var has := (v: int) => v in s;
      assert Takes(has, q, s);
      Differs(q, has);
    }
  }
}

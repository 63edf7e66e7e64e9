/** Where a piece stands in a text. */
module Texts {

  /** s stands at position i of the text. */
  ghost predicate Has<T>(text: seq<T>, i: nat, s: seq<T>) {
    i + |s| <= |text| && text[i..i + |s|] == s
  }

  lemma {:induction false} HasSplit<T>(text: seq<T>, i: nat, s: seq<T>, t: seq<T>)
    requires Has(text, i, s + t)
    ensures Has(text, i, s) && Has(text, i + |s|, t)
  {
    var u := text[i..i + |s + t|];
    assert text[i..i + |s|] == u[..|s|] == s;
    assert text[i + |s|..i + |s| + |t|] == u[|s|..] == t;
  }
}

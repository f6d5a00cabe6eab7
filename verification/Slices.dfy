/** Sequences inside sequences. */
module Slices {

  /** `t` stands in `s` at `i`. */
  predicate Holds<T(==)>(s: seq<T>, i: nat, t: seq<T>) {
    i + |t| <= |s| && s[i..i + |t|] == t
  }

  lemma HoldsAt<T>(before: seq<T>, t: seq<T>, after: seq<T>)
    ensures Holds(before + t + after, |before|, t)
  {
  }

  lemma HoldsParts<T>(s: seq<T>, i: nat, t: seq<T>, u: seq<T>)
    requires Holds(s, i, t + u)
    ensures Holds(s, i, t) && Holds(s, i + |t|, u)
  {
    var tu := s[i..i + |t + u|];
    assert tu[..|t|] == t && tu[|t|..] == u;
  }

  lemma HoldsOne<T>(s: seq<T>, i: nat, x: T)
    requires Holds(s, i, [x])
    ensures i < |s| && s[i] == x
  {
    assert s[i..i + 1][0] == s[i];
  }

  lemma HoldsRoom<T>(s: seq<T>, i: nat, t: seq<T>)
    requires Holds(s, i, t)
    ensures i + |t| <= |s| && s[i..i + |t|] == t && (i == 0 ==> s[..|t|] == t)
  {
  }

  lemma HoldsElement<T>(s: seq<T>, i: nat, t: seq<T>, k: nat)
    requires Holds(s, i, t) && k < |t|
    ensures s[i + k] == t[k]
  {
    assert s[i..i + |t|][k] == s[i + k];
  }

  /** Two parts with one element between them. */
  lemma HoldsAround<T>(s: seq<T>, i: nat, t: seq<T>, x: T, u: seq<T>)
    requires Holds(s, i, t + ([x] + u))
    ensures Holds(s, i, t) && Holds(s, i + |t| + 1, u)
    ensures i + |t| < |s| && s[i + |t|] == x && |t + ([x] + u)| == |t| + 1 + |u|
  {
    hide Holds;
    HoldsParts(s, i, t, [x] + u);
    HoldsParts(s, i + |t|, [x], u);
    HoldsOne(s, i + |t|, x);
  }

  lemma SuffixParts<T>(s: seq<T>, i: nat, t: seq<T>, u: seq<T>)
    requires i <= |s| && s[i..] == t + u
    ensures Holds(s, i, t) && s[i + |t|..] == u
  {
    var suffix := s[i..];
    assert s[i..i + |t|] == suffix[..|t|] && s[i + |t|..] == suffix[|t|..];
  }

  lemma SuffixAround<T>(s: seq<T>, i: nat, t: seq<T>, x: T, u: seq<T>)
    requires i <= |s| && s[i..] == t + ([x] + u)
    ensures Holds(s, i, t) && i + |t| < |s| && s[i + |t|] == x && s[i + |t| + 1..] == u
  {
    hide Holds;
    SuffixParts(s, i, t, [x] + u);
    SuffixParts(s, i + |t|, [x], u);
    HoldsOne(s, i + |t|, x);
  }

  lemma Regroup<T>(a: seq<T>, b: seq<T>, c: seq<T>)
    ensures a + (b + c) == a + b + c
  {
  }
}

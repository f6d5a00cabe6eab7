/** Characters and character tests shared by the scanners. A C string is modelled as the
    sequence of its characters; reading at or past its end gives the terminating NUL. */
module CText {
  import opened Slices

  /** `string[i]` in C: the character at `i`, or NUL at the end of the string. */
  function At(s: string, i: int): char {
    if 0 <= i < |s| then s[i] else '\0'
  }

  predicate Newline(c: char) {
    c == '\r' || c == '\n'
  }

  predicate Whitespace(c: char) {
    c == ' ' || c == '\t' || c == '\r' || c == '\n'
  }

  predicate AllWhitespace(w: string) {
    forall k :: 0 <= k < |w| ==> Whitespace(w[k])
  }

  /** `tolower` on ASCII letters. */
  function Lower(c: char): char {
    if 'A' <= c <= 'Z' then c - 'A' + 'a' else c
  }

  /** The same character, or the same letter in the other case. */
  predicate SameLetter(c: char, d: char) {
    || c == d
    || ('A' <= c <= 'Z' && d as int - 'a' as int == c as int - 'A' as int)
    || ('A' <= d <= 'Z' && c as int - 'a' as int == d as int - 'A' as int)
  }

  predicate SameText(s: string, t: string) {
    |s| == |t| && forall k :: 0 <= k < |s| ==> SameLetter(s[k], t[k])
  }

  lemma SameTextParts(s: string, s': string, t: string, t': string)
    requires SameText(s, s') && SameText(t, t')
    ensures SameText(s + t, s' + t')
  {
    var u, u' := s + t, s' + t';
    forall k | 0 <= k < |u| ensures SameLetter(u[k], u'[k]) {
      if k < |s| { assert SameLetter(s[k], s'[k]); } else { assert SameLetter(t[k - |s|], t'[k - |s|]); }
    }
  }

  /** Comparing in lower case is comparing without case. */
  lemma LowerIsBlind(c: char, d: char)
    ensures Lower(c) == Lower(d) <==> SameLetter(c, d)
    ensures !('A' <= Lower(c) <= 'Z') && SameLetter(c, Lower(c))
  {
  }

  /** Letters in either case are letters; everything else is the same character only as itself. */
  lemma SameLetterIs(c: char, d: char)
    requires SameLetter(c, d) && c != d
    ensures ('A' <= c <= 'Z' || 'a' <= c <= 'z') && ('A' <= d <= 'Z' || 'a' <= d <= 'z')
  {
  }

  /** The lower-case word `w` occurs in `s` at `i`, case being insignificant. */
  predicate WordAt(s: string, i: int, w: string) {
    0 <= i && i + |w| <= |s| && forall k :: 0 <= k < |w| ==> Lower(s[i + k]) == w[k]
  }

  /** A word occurs exactly where the characters are its own in either case. */
  lemma WordAtIs(s: string, i: int, w: string)
    requires forall k :: 0 <= k < |w| ==> !('A' <= w[k] <= 'Z')
    ensures WordAt(s, i, w) <==> 0 <= i && i + |w| <= |s| && SameText(s[i..i + |w|], w)
  {
    if 0 <= i && i + |w| <= |s| {
      var t := s[i..i + |w|];
      forall k | 0 <= k < |w| ensures Lower(s[i + k]) == w[k] <==> SameLetter(t[k], w[k]) {
        LowerIsBlind(t[k], w[k]);
      }
    }
  }

  lemma NotWordAt(s: string, i: nat, w: string, k: nat)
    requires k < |w| && i + k < |s| && Lower(s[i + k]) != w[k]
    ensures !WordAt(s, i, w)
  {
  }

  /** Where two texts differ only in case, the same words occur. */
  lemma WordAtBlind(s: string, t: string, i: int, w: string)
    requires SameText(s, t)
    ensures WordAt(s, i, w) == WordAt(t, i, w)
  {
    if 0 <= i && i + |w| <= |s| {
      forall j | i <= j < i + |w| ensures Lower(s[j]) == Lower(t[j]) {
        LowerIsBlind(s[j], t[j]);
      }
    }
  }

  predicate EndsWithWord(s: string, w: string) {
    WordAt(s, |s| - |w|, w)
  }

  /** The configurable bracket pair; `<` and `>` always count as brackets besides it. */
  datatype Brackets = Brackets(left: char, right: char)

  /** A bracket is no letter, no whitespace and no character the scanners give a meaning to. */
  predicate PlainBracket(c: char) {
    && !('A' <= c <= 'Z') && !('a' <= c <= 'z') && !Whitespace(c)
    && c != ';' && c != '/' && c != '"' && c != '\\' && c != '=' && c != '\0'
  }

  /** Both brackets are plain, and none both opens and closes. */
  predicate Sane(b: Brackets) {
    && PlainBracket(b.left) && PlainBracket(b.right)
    && b.right != '<' && b.left != '>' && b.left != b.right
  }

  predicate IsLeft(b: Brackets, c: char) {
    c == '<' || c == b.left
  }

  predicate IsRight(b: Brackets, c: char) {
    c == '>' || c == b.right
  }

  /** `;;;` starts a comment. */
  predicate CommentAt(s: string, i: nat) {
    i + 2 < |s| && s[i] == ';' && s[i + 1] == ';' && s[i + 2] == ';'
  }

  /** The first newline at or after `i`, or the end of the text. */
  function LineEnd(s: string, i: nat): (j: nat)
    ensures i <= j && (i <= |s| ==> j <= |s|)
    decreases |s| - i
  {
    if i >= |s| || s[i] == '\n' then i else LineEnd(s, i + 1)
  }

  lemma {:induction false} LineEndIs(s: string, i: nat, j: nat)
    requires i <= j <= |s| && (forall k :: i <= k < j ==> s[k] != '\n')
    ensures LineEnd(s, i) == LineEnd(s, j)
    decreases j - i
  {
    if i < j { LineEndIs(s, i + 1, j); }
  }

  lemma LineEndHere(s: string, i: nat)
    requires i == |s| || (i < |s| && s[i] == '\n')
    ensures LineEnd(s, i) == i
  {
  }

  lemma {:induction false} LineEndAt(s: string, i: nat)
    requires i <= |s|
    ensures var e := LineEnd(s, i); (e < |s| ==> s[e] == '\n') && forall k :: i <= k < e ==> s[k] != '\n'
    decreases |s| - i
  {
    if i < |s| && s[i] != '\n' { LineEndAt(s, i + 1); }
  }

  /** Steps to the end of the line, as the scanners do. */
  method ToLineEnd(s: string, start: nat) returns (i: nat)
    requires start <= |s|
    ensures i == LineEnd(s, start)
  {
    i := start;
    while i < |s| && s[i] != '\n'
      invariant start <= i <= |s| && LineEnd(s, start) == LineEnd(s, i)
    {
      i := i + 1;
    }
  }

  lemma {:induction false} LineEndBlind(s: string, t: string, i: nat)
    requires SameText(s, t)
    ensures LineEnd(s, i) == LineEnd(t, i)
    decreases |s| - i
  {
    if i < |s| {
      assert SameLetter(s[i], t[i]);
      LineEndBlind(s, t, i + 1);
    }
  }

  /** The first character at or after `i` that is not whitespace. */
  function SkipBlanks(s: string, i: nat): (j: nat)
    ensures i <= j && (i <= |s| ==> j <= |s|) && !Whitespace(At(s, j))
    decreases |s| - i
  {
    if i < |s| && Whitespace(s[i]) then SkipBlanks(s, i + 1) else i
  }

  /** Whitespace is skipped up to something else, or to the end of the text. */
  lemma {:induction false} BlanksSkipped(s: string, i: nat, w: string)
    requires Holds(s, i, w) && AllWhitespace(w) && (i + |w| < |s| ==> !Whitespace(s[i + |w|]))
    ensures SkipBlanks(s, i) == i + |w|
    decreases |w|
  {
    if w != "" {
      assert [w[0]] + w[1..] == w;
      HoldsParts(s, i, [w[0]], w[1..]);
      HoldsOne(s, i, w[0]);
      BlanksSkipped(s, i + 1, w[1..]);
    }
  }
}

/** What substitution makes of a page and of its cursor, told from the matches alone (libmhtml/pages.c). */
module SubstText {
  import opened Options
  import opened Slices
  import opened Substitution

  // ---------------------------------------------------------------- replacement texts

  /** A replacement text: plain characters, references to groups, doubled backslashes, and backslashes that
      mean nothing, before another character or at the end. */
  datatype Template = End
                    | Char(c: char, rest: Template)
                    | Reference(n: nat, rest: Template)
                    | Backslashes(rest: Template)
                    | Stray(c: char, rest: Template)
                    | LastBackslash

  predicate ProperTemplate(t: Template) {
    match t
    case End => true
    case Char(c, rest) => c != '\\' && ProperTemplate(rest)
    case Reference(n, rest) => n < 10 && ProperTemplate(rest)
    case Backslashes(rest) => ProperTemplate(rest)
    case Stray(c, rest) => c != '\\' && !('0' <= c <= '9') && ProperTemplate(rest)
    case LastBackslash => true
  }

  function Write(t: Template): string
    requires ProperTemplate(t)
  {
    match t
    case End => ""
    case Char(c, rest) => [c] + Write(rest)
    case Reference(n, rest) => ['\\', "0123456789"[n]] + Write(rest)
    case Backslashes(rest) => "\\\\" + Write(rest)
    case Stray(c, rest) => ['\\', c] + Write(rest)
    case LastBackslash => "\\"
  }

  /** A reference stands for what its group matched, nothing if that took no part; all else for itself. */
  function Meaning(t: Template, groups: seq<Span>, text: string): string
    requires ProperTemplate(t) && ProperSpans(groups, |text|)
  {
    match t
    case End => ""
    case Char(c, rest) => [c] + Meaning(rest, groups, text)
    case Reference(n, rest) =>
      (if groups[n].so < 0 then "" else text[groups[n].so..groups[n].eo])
      + Meaning(rest, groups, text)
    case Backslashes(rest) => "\\\\" + Meaning(rest, groups, text)
    case Stray(c, rest) => ['\\', c] + Meaning(rest, groups, text)
    case LastBackslash => "\\"
  }

  lemma CharStep(w: string, i: nat, c: char, groups: seq<Span>, text: string)
    requires i < |w| && w[i] == c != '\\' && ProperSpans(groups, |text|)
    ensures Expand(w, i, groups, text) == [c] + Expand(w, i + 1, groups, text)
  {
    hide Expand, References, ProperSpans;
    assert w[i..i + 1] == [c];
    ExpandStep(w, i, groups, text);
  }

  lemma ReferenceStep(w: string, i: nat, n: nat, groups: seq<Span>, text: string)
    requires n < 10 && i + 1 < |w| && w[i] == '\\' && w[i + 1] == "0123456789"[n] && ProperSpans(groups, |text|)
    ensures Expand(w, i, groups, text)
         == (if groups[n].so < 0 then "" else text[groups[n].so..groups[n].eo]) + Expand(w, i + 2, groups, text)
  {
    hide Expand, References;
    ExpandStep(w, i, groups, text);
  }

  lemma BackslashesStep(w: string, i: nat, groups: seq<Span>, text: string)
    requires i + 1 < |w| && w[i] == '\\' == w[i + 1] && ProperSpans(groups, |text|)
    ensures Expand(w, i, groups, text) == "\\\\" + Expand(w, i + 2, groups, text)
  {
    hide Expand, References, ProperSpans;
    assert w[i..i + 2] == "\\\\";
    ExpandStep(w, i, groups, text);
  }

  lemma StrayStep(w: string, i: nat, c: char, groups: seq<Span>, text: string)
    requires i + 1 < |w| && w[i] == '\\' && w[i + 1] == c != '\\' && !('0' <= c <= '9') && ProperSpans(groups, |text|)
    ensures Expand(w, i, groups, text) == ['\\', c] + Expand(w, i + 2, groups, text)
  {
    hide Expand, References, ProperSpans;
    ExpandStep(w, i, groups, text);
    assert w[i..i + 1] == ['\\'];
    CharStep(w, i + 1, c, groups, text);
    assert ['\\'] + ([c] + Expand(w, i + 2, groups, text)) == ['\\', c] + Expand(w, i + 2, groups, text);
  }

  lemma TwoElements(before: string, c: char, d: char, rest: string)
    ensures var w := before + ([c, d] + rest); |before| + 1 < |w| && w[|before|] == c && w[|before| + 1] == d
  {
  }

  lemma ExpandEnds(before: string, groups: seq<Span>, text: string)
    requires ProperSpans(groups, |text|)
    ensures Expand(before + "", |before|, groups, text) == ""
    ensures Expand(before + "\\", |before|, groups, text) == "\\"
  {
    var w := before + "\\";
    assert w[|before|] == '\\' && Expand(w, |before| + 1, groups, text) == "";
  }

  /** The expanded replacement is what it means. */
  lemma {:induction false} ExpandIsMeaning(before: string, t: Template, groups: seq<Span>, text: string)
    requires ProperTemplate(t) && ProperSpans(groups, |text|)
    ensures Expand(before + Write(t), |before|, groups, text) == Meaning(t, groups, text)
    decreases t
  {
    hide ProperSpans, Expand;
    match t
    case End => ExpandEnds(before, groups, text);
    case LastBackslash => ExpandEnds(before, groups, text);
    case Char(c, rest) =>
      CharStep(before + Write(t), |before|, c, groups, text);
      Regroup(before, [c], Write(rest));
      ExpandIsMeaning(before + [c], rest, groups, text);
    case Reference(n, rest) =>
      TwoElements(before, '\\', "0123456789"[n], Write(rest));
      ReferenceStep(before + Write(t), |before|, n, groups, text);
      Regroup(before, ['\\', "0123456789"[n]], Write(rest));
      ExpandIsMeaning(before + ['\\', "0123456789"[n]], rest, groups, text);
    case Backslashes(rest) =>
      TwoElements(before, '\\', '\\', Write(rest));
      BackslashesStep(before + Write(t), |before|, groups, text);
      Regroup(before, "\\\\", Write(rest));
      ExpandIsMeaning(before + "\\\\", rest, groups, text);
    case Stray(c, rest) =>
      TwoElements(before, '\\', c, Write(rest));
      StrayStep(before + Write(t), |before|, c, groups, text);
      Regroup(before, ['\\', c], Write(rest));
      ExpandIsMeaning(before + ['\\', c], rest, groups, text);
  }

  // ---------------------------------------------------------------- the page

  /** What becomes of the text `s`. */
  ghost function Result(m: Matcher, w: string, s: string, notBol: bool): string
    requires Proper(m)
  {
    Splice(s, 0, Edits(m, w, s, 0, notBol))
  }

  function ShiftedBy(edits: seq<Edit>, n: nat): seq<Edit> {
    seq(|edits|, k requires 0 <= k < |edits| => Edit(edits[k].from + n, edits[k].to + n, edits[k].text))
  }

  /** The matches after a point are those in the text after it. */
  lemma {:induction false} EditsFrom(m: Matcher, w: string, s: string, at: nat, notBol: bool)
    requires Proper(m) && at <= |s|
    ensures Edits(m, w, s, at, notBol) == ShiftedBy(Edits(m, w, s[at..], 0, notBol), at)
    decreases |s| - at
  {
    EditsBetween(m, w, s, at, 0, notBol);
    assert s[at..][0..] == s[at..];
  }

  lemma {:induction false} EditsBetween(m: Matcher, w: string, s: string, at: nat, from: nat, notBol: bool)
    requires Proper(m) && at + from <= |s|
    ensures Edits(m, w, s, at + from, notBol) == ShiftedBy(Edits(m, w, s[at..], from, notBol), at)
    decreases |s| - at - from
  {
    hide Expand, Edits;
    var t := s[at..];
    assert t[from..] == s[at + from..];
    var r := m(t[from..], notBol);
    EditsStep(m, w, s, at + from, notBol);
    EditsStep(m, w, t, from, notBol);
    if r.Some? && r.value[0].so != r.value[0].eo {
      EditsBetween(m, w, s, at, from + r.value[0].eo, true);
      var all := Edits(m, w, s, at + from, notBol);
      assert all == [all[0]] + all[1..];
    }
  }

  lemma ShiftedHead(edits: seq<Edit>, at: nat)
    requires edits != []
    ensures var shifted, e := ShiftedBy(edits, at), edits[0];
            && shifted != [] && shifted[0] == Edit(e.from + at, e.to + at, e.text)
            && shifted[1..] == ShiftedBy(edits[1..], at)
  {
  }

  lemma SpliceEnd(s: string, at: nat)
    requires at <= |s|
    ensures InOrder([], at, |s|) && Splice(s, at, []) == s[at..]
  {
  }

  lemma SuffixSlice(s: string, at: nat, i: nat, j: nat)
    requires i <= j && at + j <= |s|
    ensures s[at..][i..j] == s[at + i..at + j] && s[at..][i..] == s[at + i..]
  {
  }

  lemma {:induction false} SpliceFrom(s: string, at: nat, from: nat, edits: seq<Edit>)
    requires at + from <= |s| && InOrder(edits, from, |s| - at)
    ensures InOrder(ShiftedBy(edits, at), at + from, |s|)
    ensures Splice(s, at + from, ShiftedBy(edits, at)) == Splice(s[at..], from, edits)
    decreases |edits|
  {
    hide Splice, ShiftedBy;
    InOrderBounds(edits, from, |s| - at);
    if edits == [] {
      NothingShifted(at);
      SpliceEnd(s, at + from);
      SpliceEnd(s[at..], from);
      SuffixSlice(s, at, from, from);
    } else {
      ShiftedHead(edits, at);
      SpliceFrom(s, at, edits[0].to, edits[1..]);
      SpliceStep(s[at..], from, edits);
      SpliceStep(s, at + from, ShiftedBy(edits, at));
      SuffixSlice(s, at, from, edits[0].from);
    }
  }

  lemma NothingShifted(at: nat)
    ensures ShiftedBy([], at) == []
  {
  }

  /** For every matcher: up to the first match the text stays, the match becomes its replacement, and what
      comes after it is treated in the same way, but not as the beginning of a line. Where nothing matches, or
      an empty match comes first, the text stays as it is. */
  lemma ResultIs(m: Matcher, w: string, s: string, notBol: bool)
    requires Proper(m)
    ensures var r := m(s, notBol);
            if r.None? || r.value[0].so == r.value[0].eo then Result(m, w, s, notBol) == s
            else
              var start, end := r.value[0].so, r.value[0].eo;
              && 0 <= start < end <= |s| && ProperSpans(r.value, |s|)
              && Result(m, w, s, notBol) == s[..start] + (Expand(w, 0, r.value, s) + Result(m, w, s[end..], true))
  {
    hide Expand, Edits, Splice;
    assert s[0..] == s;
    EditsStep(m, w, s, 0, notBol);
    var r := m(s, notBol);
    if r.Some? && r.value[0].so != r.value[0].eo {
      var end := r.value[0].eo;
      var edits := Edits(m, w, s, 0, notBol);
      SpliceStep(s, 0, edits);
      EditsFrom(m, w, s, end, true);
      var rest := Edits(m, w, s[end..], 0, true);
      SpliceFrom(s, end, 0, rest);
      assert edits[0].to == end && edits[1..] == ShiftedBy(rest, end);
      assert s[0..r.value[0].so] == s[..r.value[0].so];
    } else {
      NoEdits(s);
    }
  }

  lemma NoEdits(s: string)
    ensures Splice(s, 0, []) == s
  {
  }

  // ---------------------------------------------------------------- the cursor

  lemma {:induction false} ImageCovered(at: nat, before: seq<Edit>, e: Edit, after: seq<Edit>, p: nat, shift: int,
                                         n: nat)
    requires InOrder(before, at, e.from) && e.from < p <= e.to && InOrder(after, e.to, n)
    ensures Image(p, before + ([e] + after), shift) == e.from + shift + Growth(before) + |e.text|
    decreases |before|
  {
    var all := before + ([e] + after);
    if before == [] {
      assert all[0] == e;
    } else {
      var f := before[0];
      InOrderBounds(before, at, e.from);
      InOrderBounds(before[1..], f.to, e.from);
      assert all[0] == f && all[1..] == before[1..] + ([e] + after);
      ImageCovered(f.to, before[1..], e, after, p, shift + |f.text| - (f.to - f.from), n);
    }
  }

  /** A cursor inside a match, or at its end, comes to stand right after the replacement. */
  lemma CoveredGoesToEnd(s: string, before: seq<Edit>, e: Edit, after: seq<Edit>, p: nat)
    requires InOrder(before, 0, e.from) && e.from < p <= e.to && InOrder(after, e.to, |s|)
    ensures InOrder(before + ([e] + after), 0, |s|) && e.from < e.to <= |s|
    ensures var result, image := Splice(s, 0, before + ([e] + after)), Image(p, before + ([e] + after), 0);
            && 0 <= image <= |result|
            && result[..image] == Splice(s[..e.from], 0, before) + e.text && result[image..] == Splice(s, e.to, after)
  {
    hide Splice, Image;
    InOrderBounds(after, e.to, |s|);
    var tail := [e] + after;
    assert tail[1..] == after && InOrder(tail, e.from, |s|);
    SpliceCuts(s, 0, before, tail, e.from);
    SpliceStep(s, e.from, tail);
    SpliceGrows(s[..e.from], 0, before);
    ImageCovered(0, before, e, after, p, 0, |s|);
    assert s[e.from..e.from] == "";
    var head := Splice(s[..e.from], 0, before);
    Regroup(head, e.text, Splice(s, e.to, after));
  }
}

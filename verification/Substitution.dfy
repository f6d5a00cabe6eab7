/** Regular-expression substitution in a page, with a cursor kept in place (libmhtml/pages.c). */
module Substitution {
  import opened Buffers
  import opened Slices
  import opened Options

  /** Where a group matched; a group that took no part is at -1. */
  datatype Span = Span(so: int, eo: int)

  /** `regexec` on the text from some point on, and whether that text does not begin a line. It
      answers the spans of the whole match and of nine groups, or nothing. */
  type Matcher = (string, bool) -> Option<seq<Span>>

  predicate ProperSpans(groups: seq<Span>, n: nat) {
    && |groups| == 10 && 0 <= groups[0].so
    && forall k :: 0 <= k < 10 ==> groups[k].so <= groups[k].eo <= n && (groups[k].so >= 0 || groups[k].eo < 0)
  }

  /** The matcher answers ordered offsets inside the text. */
  ghost predicate Proper(m: Matcher) {
    forall s: string, notBol: bool :: m(s, notBol).Some? ==> ProperSpans(m(s, notBol).value, |s|)
  }

  // ---------------------------------------------------------------- replacement text

  predicate IsReference(w: string, i: nat) {
    i + 1 < |w| && w[i] == '\\' && '0' <= w[i + 1] <= '9'
  }

  predicate IsQuotedBackslash(w: string, i: nat) {
    i + 1 < |w| && w[i] == '\\' && w[i + 1] == '\\'
  }

  function GroupText(groups: seq<Span>, digit: char, text: string): string
    requires ProperSpans(groups, |text|) && '0' <= digit <= '9'
  {
    var g := groups[digit as int - '0' as int];
    if g.so < 0 then "" else text[g.so..g.eo]
  }

  /** `w` from `i` on with each backslash and digit replaced by what that group matched; two
      backslashes stay as they are. */
  function Expand(w: string, i: nat, groups: seq<Span>, text: string): string
    requires ProperSpans(groups, |text|)
    decreases |w| - i
  {
    if i >= |w| then ""
    else if IsReference(w, i) then GroupText(groups, w[i + 1], text) + Expand(w, i + 2, groups, text)
    else if IsQuotedBackslash(w, i) then w[i..i + 2] + Expand(w, i + 2, groups, text)
    else [w[i]] + Expand(w, i + 1, groups, text)
  }

  /** Where the references are, from `i` on. */
  function References(w: string, i: nat): (refs: seq<nat>)
    ensures forall k :: 0 <= k < |refs| ==> i <= refs[k] && IsReference(w, refs[k])
    decreases |w| - i
  {
    if i >= |w| then []
    else if IsReference(w, i) then [i] + References(w, i + 2)
    else References(w, if IsQuotedBackslash(w, i) then i + 2 else i + 1)
  }

  lemma ExpandStep(w: string, i: nat, groups: seq<Span>, text: string)
    requires ProperSpans(groups, |text|) && i < |w|
    ensures IsReference(w, i) ==>
              Expand(w, i, groups, text) == GroupText(groups, w[i + 1], text) + Expand(w, i + 2, groups, text)
              && References(w, i) == [i] + References(w, i + 2)
    ensures !IsReference(w, i) ==>
              var next := if IsQuotedBackslash(w, i) then i + 2 else i + 1;
              Expand(w, i, groups, text) == w[i..next] + Expand(w, next, groups, text)
              && References(w, i) == References(w, next)
  {
    assert w[i..i + 1] == [w[i]];
  }

  /** Where the next reference is, or the end of `w`. */
  function NextReference(w: string, i: nat): (n: nat)
    requires i <= |w|
    ensures i <= n <= |w| && (n < |w| ==> IsReference(w, n))
  {
    if References(w, i) == [] then |w| else References(w, i)[0]
  }

  /** What stands for the reference at `n` and the text after it. */
  function FromReference(w: string, n: nat, groups: seq<Span>, text: string): string
    requires ProperSpans(groups, |text|) && n <= |w| && (n < |w| ==> IsReference(w, n))
  {
    if n == |w| then "" else GroupText(groups, w[n + 1], text) + Expand(w, n + 2, groups, text)
  }

  /** `w` from `i` on: the text up to the next reference, and what follows. */
  function ToReference(w: string, i: nat, groups: seq<Span>, text: string): string
    requires ProperSpans(groups, |text|) && i <= |w|
  {
    w[i..NextReference(w, i)] + FromReference(w, NextReference(w, i), groups, text)
  }

  lemma PrependGap(w: string, i: nat, next: nat, groups: seq<Span>, text: string)
    requires ProperSpans(groups, |text|) && i <= next <= |w| && References(w, i) == References(w, next)
    ensures ToReference(w, i, groups, text) == w[i..next] + ToReference(w, next, groups, text)
  {
    hide FromReference, IsReference, References, ProperSpans;
    var n := NextReference(w, next);
    assert NextReference(w, i) == n;
    Regroup(w[i..next], w[next..n], FromReference(w, n, groups, text));
    assert w[i..n] == w[i..next] + w[next..n];
  }

  lemma ToReferenceHere(w: string, i: nat, groups: seq<Span>, text: string)
    requires ProperSpans(groups, |text|) && i < |w| && IsReference(w, i)
    ensures ToReference(w, i, groups, text) == GroupText(groups, w[i + 1], text) + Expand(w, i + 2, groups, text)
    ensures var refs := References(w, i); refs != [] && refs[0] == i && refs[1..] == References(w, i + 2)
  {
    hide GroupText, Expand;
    assert References(w, i) == [i] + References(w, i + 2);
    assert w[i..i] == "";
  }

  lemma {:induction false} ReferencesTail(w: string, i: nat)
    ensures var refs := References(w, i); refs != [] ==> refs[1..] == References(w, refs[0] + 2)
    decreases |w| - i
  {
    if i < |w| {
      if IsReference(w, i) {
        assert ([i] + References(w, i + 2))[1..] == References(w, i + 2);
      } else {
        ReferencesTail(w, if IsQuotedBackslash(w, i) then i + 2 else i + 1);
      }
    }
  }

  lemma {:induction false} ExpandToReference(w: string, i: nat, groups: seq<Span>, text: string)
    requires ProperSpans(groups, |text|) && i <= |w|
    ensures Expand(w, i, groups, text) == ToReference(w, i, groups, text)
    decreases |w| - i
  {
    if i == |w| {
      assert w[i..i] + "" == "";
    } else {
      ExpandStep(w, i, groups, text);
      hide Expand, References, ToReference, NextReference, FromReference, GroupText, ProperSpans;
      if IsReference(w, i) {
        ToReferenceHere(w, i, groups, text);
      } else {
        var next := if IsQuotedBackslash(w, i) then i + 2 else i + 1;
        ExpandToReference(w, next, groups, text);
        PrependGap(w, i, next, groups, text);
      }
    }
  }

  /** The scan for backslashes at the start of `page_subst_in_page_pivot`. */
  method FindReferences(w: string) returns (refs: seq<nat>)
    ensures refs == References(w, 0)
  {
    refs := [];
    var temp := 0;
    while temp < |w|
      invariant 0 <= temp && References(w, 0) == refs + References(w, temp)
    {
      if w[temp] != '\\' {
        temp := temp + 1;
      } else if temp + 1 < |w| && '0' <= w[temp + 1] <= '9' {
        refs := refs + [temp];
        temp := temp + 2;
      } else if temp + 1 < |w| && w[temp + 1] == '\\' {
        temp := temp + 2;
      } else {
        temp := temp + 1;
      }
    }
  }

  /** The loop that builds a replacement from the pieces of `w` and the groups. */
  method BuildReplacement(w: string, refs: seq<nat>, groups: seq<Span>, text: string) returns (buffer: string)
    requires ProperSpans(groups, |text|) && refs == References(w, 0)
    ensures buffer == Expand(w, 0, groups, text)
  {
    hide Expand, GroupText, References;
    buffer := "";
    var i, b := 0, 0;
    assert refs[0..] == refs;
    while i < |refs|
      invariant 0 <= i <= |refs| && 0 <= b <= |w| && refs[i..] == References(w, b)
      invariant Expand(w, 0, groups, text) == buffer + Expand(w, b, groups, text)
    {
      ExpandToReference(w, b, groups, text);
      ReferencesTail(w, b);
      assert References(w, b)[0] == refs[i];
      var e := refs[i];
      var piece, group := w[b..e], GroupText(groups, w[e + 1], text);
      Regroup(piece, group, Expand(w, e + 2, groups, text));
      Regroup(buffer, piece + group, Expand(w, e + 2, groups, text));
      buffer := buffer + (piece + group);
      assert refs[i..][1..] == refs[i + 1..];
      b := e + 2;
      i := i + 1;
    }
    ExpandToReference(w, b, groups, text);
    assert w[b..|w|] + "" == w[b..];
    buffer := buffer + w[b..];
  }

  // ---------------------------------------------------------------- the specification

  /** The characters of the original text from `from` up to `to` become `text`. */
  datatype Edit = Edit(from: nat, to: nat, text: string)

  /** The matches in the original text from `at` on, each searched for after the one before; an
      empty match ends the search. */
  ghost function Edits(m: Matcher, w: string, s: string, at: nat, notBol: bool): (edits: seq<Edit>)
    requires Proper(m) && at <= |s|
    ensures InOrder(edits, at, |s|)
    decreases |s| - at
  {
    var r := m(s[at..], notBol);
    if r.None? || r.value[0].so == r.value[0].eo then []
    else
      var g := r.value[0];
      [Edit(at + g.so, at + g.eo, Expand(w, 0, r.value, s[at..]))] + Edits(m, w, s, at + g.eo, true)
  }

  predicate InOrder(edits: seq<Edit>, at: nat, n: nat)
    decreases |edits|
  {
    if edits == [] then at <= n
    else at <= edits[0].from < edits[0].to && InOrder(edits[1..], edits[0].to, n)
  }

  lemma {:induction false} InOrderBounds(edits: seq<Edit>, at: nat, n: nat)
    requires InOrder(edits, at, n)
    ensures at <= n && (edits != [] ==> edits[0].to <= n)
    decreases |edits|
  {
    if edits != [] { InOrderBounds(edits[1..], edits[0].to, n); }
  }

  /** The gaps of `s` from `at` on, interleaved with the replacements. */
  function Splice(s: string, at: nat, edits: seq<Edit>): string
    requires InOrder(edits, at, |s|)
    decreases |edits|
  {
    InOrderBounds(edits, at, |s|);
    if edits == [] then s[at..]
    else s[at..edits[0].from] + (edits[0].text + Splice(s, edits[0].to, edits[1..]))
  }

  function Growth(edits: seq<Edit>): int {
    if edits == [] then 0
    else |edits[0].text| - (edits[0].to - edits[0].from) + Growth(edits[1..])
  }

  /** Where position `p` of the original text ends up; `shift` is the growth so far. A position
      that a match covers goes to the end of its replacement. */
  function Image(p: int, edits: seq<Edit>, shift: int): int
    decreases |edits|
  {
    if edits == [] || p <= edits[0].from then p + shift
    else if p <= edits[0].to then edits[0].from + shift + |edits[0].text|
    else Image(p, edits[1..], shift + |edits[0].text| - (edits[0].to - edits[0].from))
  }

  /** The length of the result. */
  lemma {:induction false} SpliceGrows(s: string, at: nat, edits: seq<Edit>)
    requires InOrder(edits, at, |s|)
    ensures at <= |s| && |Splice(s, at, edits)| == |s| - at + Growth(edits)
    decreases |edits|
  {
    InOrderBounds(edits, at, |s|);
    if edits != [] { SpliceGrows(s, edits[0].to, edits[1..]); }
  }

  lemma {:induction false} SpliceCuts(s: string, at: nat, before: seq<Edit>, after: seq<Edit>, p: nat)
    requires p <= |s| && InOrder(before, at, p) && InOrder(after, p, |s|)
    ensures InOrder(before + after, at, |s|)
    ensures Splice(s, at, before + after) == Splice(s[..p], at, before) + Splice(s, p, after)
    decreases |before|
  {
    InOrderBounds(before, at, p);
    InOrderBounds(after, p, |s|);
    if before == [] {
      assert before + after == after;
      if after == [] {
        assert s[at..] == s[..p][at..] + s[p..];
      } else {
        SpliceStep(s, at, after);
        SpliceStep(s, p, after);
        var a := after[0];
        assert s[at..a.from] == s[..p][at..] + s[p..a.from];
        Regroup(s[..p][at..], s[p..a.from], a.text + Splice(s, a.to, after[1..]));
      }
    } else {
      var e, all := before[0], before + after;
      assert all[1..] == before[1..] + after && s[at..e.from] == s[..p][at..e.from];
      SpliceCuts(s, e.to, before[1..], after, p);
      SpliceStep(s, at, all);
      SpliceStep(s[..p], at, before);
      hide Splice;
      var rest1, rest2 := Splice(s[..p], e.to, before[1..]), Splice(s, p, after);
      Regroup(e.text, rest1, rest2);
      Regroup(s[at..e.from], e.text + rest1, rest2);
    }
  }

  lemma {:induction false} ImageCuts(at: nat, before: seq<Edit>, after: seq<Edit>, p: nat, shift: int, n: nat)
    requires InOrder(before, at, p) && InOrder(after, p, n)
    ensures Image(p, before + after, shift) == p + shift + Growth(before)
    decreases |before|
  {
    if before == [] {
      assert before + after == after;
    } else {
      var e := before[0];
      InOrderBounds(before, at, p);
      InOrderBounds(before[1..], e.to, p);
      assert (before + after)[1..] == before[1..] + after;
      ImageCuts(e.to, before[1..], after, p, shift + |e.text| - (e.to - e.from), n);
      assert p == e.to ==> |before| == 1;
    }
  }

  /** A position no match covers cuts the result where its image is: in front of the image stands
      what became of the text in front of the position, after it what became of the text after. */
  lemma ImageCutsResult(s: string, before: seq<Edit>, after: seq<Edit>, p: nat)
    requires p <= |s| && InOrder(before, 0, p) && InOrder(after, p, |s|)
    ensures InOrder(before + after, 0, |s|)
    ensures var result, image := Splice(s, 0, before + after), Image(p, before + after, 0);
            && 0 <= image <= |result|
            && result[..image] == Splice(s[..p], 0, before) && result[image..] == Splice(s, p, after)
  {
    SpliceCuts(s, 0, before, after, p);
    ImageCuts(0, before, after, p, 0, |s|);
    SpliceGrows(s[..p], 0, before);
  }

  // ---------------------------------------------------------------- the loop that edits in place

  /** The cursor is still to be moved by the edits to come, or is already behind the search point. */
  ghost predicate PivotOnCourse(point: int, searchPoint: int, p: int, edits: seq<Edit>, shift: int, image: int) {
    || (point == p + shift && image == Image(p, edits, shift))
    || (point <= searchPoint && image == point)
  }

  lemma PivotStep(point: int, at: nat, p: int, edits: seq<Edit>, shift: int, image: int, n: nat)
    requires InOrder(edits, at, n) && edits != [] && PivotOnCourse(point, at + shift, p, edits, shift, image)
    ensures var e := edits[0];
            var start, end := e.from + shift, e.to + shift;
            var shift' := shift + |e.text| - (e.to - e.from);
            var point' := if end < point then point - (end - start) + |e.text|
                          else if start < point then start + |e.text| else point;
            PivotOnCourse(point', e.to + shift', p, edits[1..], shift', image)
  {
  }

  /** The search point of the page is position `at` of the original text `s`; in front of it stands
      finished text, and the edits to come will make the page what `result` says. */
  ghost predicate Editing(page: string, s: string, at: nat, shift: int, edits: seq<Edit>, result: string) {
    && at <= |s| && 0 <= at + shift <= |page| && page[at + shift..] == s[at..]
    && InOrder(edits, at, |s|) && result == page[..at + shift] + Splice(s, at, edits)
  }

  lemma EditStep(page: string, s: string, at: nat, shift: int, edits: seq<Edit>, result: string)
    requires Editing(page, s, at, shift, edits, result) && edits != []
    ensures var e := edits[0];
            && 0 <= e.from + shift <= e.to + shift <= |page|
            && Editing(page[..e.from + shift] + e.text + page[e.to + shift..], s, e.to,
                       shift + |e.text| - (e.to - e.from), edits[1..], result)
  {
    hide Splice;
    var e := edits[0];
    InOrderBounds(edits, at, |s|);
    SpliceStep(s, at, edits);
    var suffix := page[at + shift..];
    var page' := page[..e.from + shift] + e.text + page[e.to + shift..];
    assert page[at + shift..e.from + shift] == suffix[..e.from - at] == s[at..e.from];
    assert page[e.to + shift..] == suffix[e.to - at..] == s[e.to..];
    assert page[..e.from + shift] == page[..at + shift] + s[at..e.from];
    var end := e.from + shift + |e.text|;
    assert page'[..end] == page[..at + shift] + s[at..e.from] + e.text;
    assert page'[end..] == s[e.to..];
    Regroup(s[at..e.from], e.text, Splice(s, e.to, edits[1..]));
    Regroup(page[..at + shift], s[at..e.from] + e.text, Splice(s, e.to, edits[1..]));
    Regroup(page[..at + shift], s[at..e.from], e.text);
  }

  lemma SpliceStep(s: string, at: nat, edits: seq<Edit>)
    requires InOrder(edits, at, |s|) && edits != []
    ensures at <= edits[0].from <= |s|
    ensures Splice(s, at, edits) == s[at..edits[0].from] + (edits[0].text + Splice(s, edits[0].to, edits[1..]))
  {
    InOrderBounds(edits, at, |s|);
  }

  lemma EditsDone(page: string, s: string, at: nat, shift: int, result: string)
    requires Editing(page, s, at, shift, [], result)
    ensures page == result
  {
  }

  lemma EditStarts(s: string, edits: seq<Edit>)
    requires InOrder(edits, 0, |s|)
    ensures Editing(s, s, 0, 0, edits, Splice(s, 0, edits))
  {
    assert s[0..] == s && s[..0] == "";
  }

  /** One match is replaced in the page, and the cursor is kept in place. */
  method ReplaceMatch(page: TextBuffer, w: string, refs: seq<nat>, groups: seq<Span>, at: nat, point: int)
    returns (searchPoint: nat, point': int)
    requires at <= |page.text| && ProperSpans(groups, |page.text| - at) && refs == References(w, 0)
    modifies page
    ensures var start, end := groups[0].so + at, groups[0].eo + at;
            var replacement := Expand(w, 0, groups, old(page.text[at..]));
            && page.text == old(page.text[..start]) + replacement + old(page.text[end..])
            && searchPoint == start + |replacement|
            && point' == if end < point then point - (end - start) + |replacement|
                         else if start < point then start + |replacement| else point
  {
    hide Expand, References;
    var start, end := groups[0].so + at, groups[0].eo + at;
    var replacement := w;
    if |refs| != 0 {
      replacement := BuildReplacement(w, refs, groups, page.text[at..]);
    } else {
      NoReferences(w, groups, page.text[at..]);
    }
    point' := point;
    if end < point {
      point' := point - (end - start) + |replacement|;
    } else if start < point {
      point' := start + |replacement|;
    }
    TwoEdits(page.text, start, end, replacement);
    page.DeleteRange(start, end);
    page.InsertText(start, replacement);
    searchPoint := start + |replacement|;
  }

  lemma EditsStep(m: Matcher, w: string, s: string, at: nat, notBol: bool)
    requires Proper(m) && at <= |s|
    ensures var r, edits := m(s[at..], notBol), Edits(m, w, s, at, notBol);
            if r.None? then edits == []
            else ProperSpans(r.value, |s| - at) &&
                 var g := r.value[0];
                 if g.so == g.eo then edits == []
                 else edits != [] && edits[0] == Edit(at + g.so, at + g.eo, Expand(w, 0, r.value, s[at..]))
                      && edits[1..] == Edits(m, w, s, at + g.eo, true)
  {
  }

  /** `page_subst_in_page_pivot`: the page is edited at each match; the search goes on in the text
      after the replacement, which is always the end of the original text. */
  method SubstInPagePivot(page: TextBuffer, m: Matcher, withThat: Option<string>, pivot: Option<int>)
    returns (delta: int, pivot': Option<int>)
    requires Proper(m)
    modifies page
    ensures var w := if withThat.Some? then withThat.value else "";
            var edits := Edits(m, w, old(page.text), 0, false);
            && page.text == Splice(old(page.text), 0, edits)
            && delta == |page.text| - old(|page.text|) == Growth(edits)
            && pivot' == if pivot.Some? then Some(Image(pivot.value, edits, 0)) else None
  {
    hide *;
    var w := if withThat.Some? then withThat.value else "";
    var refs := FindReferences(w);
    var point := if pivot.Some? then pivot.value else 0;
    var initial := |page.text|;
    var searchPoint, done, notBol := 0, false, false;
    ghost var s, at, shift, p := page.text, 0, 0, point;
    ghost var edits := Edits(m, w, s, 0, false);
    ghost var result, image := Splice(s, 0, edits), Image(p, edits, 0);
    EditStarts(s, edits);
    PivotStarts(p, edits);
    while !done
      invariant 0 <= at <= |s| && searchPoint == at + shift && 0 <= searchPoint <= |page.text|
      invariant Editing(page.text, s, at, shift, edits, result)
      invariant PivotOnCourse(point, searchPoint, p, edits, shift, image)
      invariant edits == if done then [] else Edits(m, w, s, at, notBol)
      decreases |s| - at, if done then 0 else 1
    {
      EditingSuffix(page.text, s, at, shift, edits, result);
      EditsStep(m, w, s, at, notBol);
      var r := m(page.text[searchPoint..], notBol);
      if r.Some? && r.value[0].so != r.value[0].eo {
        EditStep(page.text, s, at, shift, edits, result);
        PivotStep(point, at, p, edits, shift, image, |s|);
        notBol := true;
        searchPoint, point := ReplaceMatch(page, w, refs, r.value, searchPoint, point);
        ghost var e := edits[0];
        at, shift, edits := e.to, shift + |e.text| - (e.to - e.from), edits[1..];
      } else {
        done := true;
      }
    }
    EditsDone(page.text, s, at, shift, result);
    PivotEnds(point, searchPoint, p, shift, image);
    SpliceGrows(s, 0, Edits(m, w, s, 0, false));
    delta := |page.text| - initial;
    pivot' := if pivot.Some? then Some(point) else None;
  }

  lemma EditingSuffix(page: string, s: string, at: nat, shift: int, edits: seq<Edit>, result: string)
    requires Editing(page, s, at, shift, edits, result)
    ensures at <= |s| && 0 <= at + shift <= |page| && page[at + shift..] == s[at..] && InOrder(edits, at, |s|)
  {
  }

  lemma PivotStarts(p: int, edits: seq<Edit>)
    ensures PivotOnCourse(p, 0, p, edits, 0, Image(p, edits, 0))
  {
  }

  lemma PivotEnds(point: int, searchPoint: int, p: int, shift: int, image: int)
    requires PivotOnCourse(point, searchPoint, p, [], shift, image)
    ensures image == point
  {
  }

  lemma NoReferences(w: string, groups: seq<Span>, text: string)
    requires ProperSpans(groups, |text|) && References(w, 0) == []
    ensures Expand(w, 0, groups, text) == w
  {
    ExpandToReference(w, 0, groups, text);
    assert w[0..] == w;
  }

  lemma TwoEdits(page: string, start: nat, end: nat, what: string)
    requires start <= end <= |page|
    ensures var cut := page[..start] + page[end..];
            cut[..start] + what + cut[start..] == page[..start] + what + page[end..]
  {
    var cut := page[..start] + page[end..];
    assert cut[..start] == page[..start] && cut[start..] == page[end..];
  }
}

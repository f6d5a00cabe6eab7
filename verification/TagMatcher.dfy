/** Finding a tag and its matching closer in a page (libmhtml/pages.c). */
module TagMatcher {
  import opened CText
  import opened Slices

  /** A tag name without brackets or semicolons. */
  predicate TagName(b: Brackets, tag: string) {
    forall k :: 0 <= k < |tag| ==> !IsLeft(b, tag[k]) && !IsRight(b, tag[k]) && tag[k] != ';'
  }

  /** `strncasecmp (page + i, tag, strlen (tag)) == 0`. */
  predicate SameNoCase(page: string, i: int, tag: string) {
    0 <= i && i + |tag| <= |page| && forall k :: 0 <= k < |tag| ==> Lower(page[i + k]) == Lower(tag[k])
  }

  predicate TagEnder(b: Brackets, c: char) {
    Whitespace(c) || c == '>' || c == b.right
  }

  predicate TagAt(b: Brackets, page: string, tag: string, i: nat) {
    && i + 1 + |tag| < |page|
    && IsLeft(b, page[i]) && TagEnder(b, page[i + 1 + |tag|]) && SameNoCase(page, i + 1, tag)
  }

  /** Where the first `tag` outside comments starts, at or after `i`; -1 if there is none. */
  function NextTag(b: Brackets, page: string, tag: string, i: nat): (r: int)
    ensures r == -1 || (i <= r && TagAt(b, page, tag, r))
    decreases |page| - i
  {
    if i >= |page| then -1
    else if CommentAt(page, i) then NextTag(b, page, tag, LineEnd(page, i + 3) + 1)
    else if TagAt(b, page, tag, i) then i
    else NextTag(b, page, tag, i + 1)
  }

  /** Just after the bracket that closes the one at the start of the scan: brackets outside
      double quotes are counted, a backslash hides the next character, comments are skipped. */
  function CloseOf(b: Brackets, page: string, i: nat, quoted: bool, depth: int): (r: int)
    ensures r == -1 || i < r <= |page|
    decreases |page| - i
  {
    if i >= |page| then -1
    else if page[i] == '\\' then CloseOf(b, page, i + 2, quoted, depth)
    else
      var c := if page[i] == b.left then '<' else page[i];
      var c := if c == b.right then '>' else c;
      if c == '<' then CloseOf(b, page, i + 1, quoted, if quoted then depth else depth + 1)
      else if c == '>' then
        if !quoted && depth == 1 then i + 1
        else CloseOf(b, page, i + 1, quoted, if quoted then depth else depth - 1)
      else if c == '"' then CloseOf(b, page, i + 1, !quoted, depth)
      else if c == ';' && CommentAt(page, i) then CloseOf(b, page, LineEnd(page, i + 2) + 1, quoted, depth)
      else CloseOf(b, page, i + 1, quoted, depth)
  }

  /** The end of the simple tag that starts at `start`, or -1. */
  function TagEnd(b: Brackets, page: string, start: nat): (r: int)
    ensures r == -1 || start < r <= |page|
  {
    if start < |page| && IsLeft(b, page[start]) then CloseOf(b, page, start, false, 0) else -1
  }

  // ---------------------------------------------------------------- the specification

  datatype Bounds = NotFound | Found(start: nat, end: nat)

  /** One left-to-right depth count over openers and closers, with comments skipped and the
      count resuming after each closer's own end. It answers the end of the closer at which
      the count first balances the opener, or -1. */
  function Balance(b: Brackets, page: string, tag: string, i: nat, depth: nat): int
    decreases |page| - i
  {
    if i >= |page| then -1
    else if CommentAt(page, i) then Balance(b, page, tag, LineEnd(page, i + 3) + 1, depth)
    else if TagAt(b, page, "/" + tag, i) then
      var end := TagEnd(b, page, i);
      if end == -1 || depth == 0 then end else Balance(b, page, tag, end, depth - 1)
    else if TagAt(b, page, tag, i) then Balance(b, page, tag, i + |tag| + 2, depth + 1)
    else Balance(b, page, tag, i + 1, depth)
  }

  /** Where the content of the opener at `start` begins. A closing bracket right after the tag
      name ends the opener and is itself where the search begins. */
  function ContentStart(b: Brackets, page: string, tag: string, start: nat, opener: nat): int
    requires TagAt(b, page, tag, opener)
  {
    if start == opener && IsRight(b, page[opener + |tag| + 1]) then opener + |tag| + 1 else TagEnd(b, page, opener)
  }

  /** The element named `tag` that is found from `start`. */
  function Element(b: Brackets, page: string, tag: string, start: nat): Bounds {
    var opener := if TagAt(b, page, tag, start) then start else NextTag(b, page, tag, start);
    if opener == -1 then NotFound
    else
      var content := ContentStart(b, page, tag, start, opener);
      if content == -1 then NotFound
      else
        var end := Balance(b, page, tag, content, 0);
        if end < 0 then NotFound else Found(opener, end)
  }

  // ---------------------------------------------------------------- scanning for a tag

  lemma {:induction false} NoRoomForTag(b: Brackets, page: string, tag: string, i: nat)
    requires i + 1 + |tag| >= |page|
    ensures NextTag(b, page, tag, i) == -1
    decreases |page| - i
  {
    if i < |page| {
      NoRoomForTag(b, page, tag, if CommentAt(page, i) then LineEnd(page, i + 3) + 1 else i + 1);
    }
  }

  /** The code does not skip a comment this near to the end, but there is no tag in it either. */
  lemma NoTagInLastComment(b: Brackets, page: string, tag: string, i: nat)
    requires Sane(b) && CommentAt(page, i) && i + 4 + |tag| >= |page|
    ensures NextTag(b, page, tag, i) == NextTag(b, page, tag, i + 1) == -1
  {
    NoRoomForTag(b, page, tag, LineEnd(page, i + 3) + 1);
    NoRoomForTag(b, page, tag, i + 3);
    if CommentAt(page, i + 1) { NoRoomForTag(b, page, tag, LineEnd(page, i + 4) + 1); }
    if CommentAt(page, i + 2) { NoRoomForTag(b, page, tag, LineEnd(page, i + 5) + 1); }
  }

  /** `page_find_tag_start`. */
  method FindTagStart(b: Brackets, page: string, tag: string, start: nat) returns (point: int)
    requires Sane(b)
    ensures point == NextTag(b, page, tag, start)
  {
    var limit := |page| - (|tag| + 1);
    var i := start;
    point := -1;
    while i < limit
      invariant start <= i
      invariant NextTag(b, page, tag, start) == NextTag(b, page, tag, i)
    {
      if CommentAt(page, i) && i + 3 < limit {
        var comment := i;
        i := i + 3;
        while i < limit && page[i] != '\n'
          invariant comment + 3 <= i <= limit
          invariant forall k :: comment + 3 <= k < i ==> page[k] != '\n'
        {
          i := i + 1;
        }
        LineEndIs(page, comment + 3, i);
        if i == limit {
          NoRoomForTag(b, page, tag, LineEnd(page, i) + 1);
          NoRoomForTag(b, page, tag, i + 1);
        }
      } else {
        if CommentAt(page, i) { NoTagInLastComment(b, page, tag, i); }
        if IsLeft(b, page[i]) && TagEnder(b, page[i + 1 + |tag|]) && SameNoCase(page, i + 1, tag) {
          return i;
        }
      }
      i := i + 1;
    }
    NoRoomForTag(b, page, tag, i);
  }

  /** `page_find_tag_end`. */
  method FindTagEnd(b: Brackets, page: string, start: nat) returns (end: int)
    ensures end == TagEnd(b, page, start)
  {
    end := -1;
    if start < |page| && IsLeft(b, page[start]) {
      var i, quoted, depth := start, false, 0;
      while end == -1 && i < |page|
        invariant i >= start && (end == -1 || end == i)
        invariant TagEnd(b, page, start) == if end != -1 then end else CloseOf(b, page, i, quoted, depth)
        decreases |page| - i, if end == -1 then 1 else 0
      {
        var c := page[i];
        if c == '\\' {
          i := i + 2;
          continue;
        }
        if c == b.left { c := '<'; }
        if c == b.right { c := '>'; }
        match c {
        case '<' =>
          if !quoted { depth := depth + 1; }
        case '>' =>
          if !quoted {
            depth := depth - 1;
            if depth == 0 { end := i + 1; }
          }
        case '"' =>
          quoted := !quoted;
        case ';' =>
          if CommentAt(page, i) {
            var comment := i + 2;
            i := comment;
            while i < |page| && page[i] != '\n'
              invariant comment <= i <= |page|
              invariant forall k :: comment <= k < i ==> page[k] != '\n'
            {
              i := i + 1;
            }
            LineEndIs(page, comment, i);
          }
        case _ =>
        }
        i := i + 1;
      }
    }
  }

  /** `page_simple_tag_bounds`. */
  method SimpleTagBounds(b: Brackets, page: string, tag: string, start: nat) returns (result: int, s: int, end: int)
    requires Sane(b)
    ensures s == NextTag(b, page, tag, start)
    ensures end == if s == -1 then -1 else TagEnd(b, page, s)
    ensures result == if end == -1 then 0 else 1
  {
    end := -1;
    s := FindTagStart(b, page, tag, start);
    if s != -1 {
      end := FindTagEnd(b, page, s);
    }
    result := if end != -1 then 1 else 0;
  }

  // ---------------------------------------------------------------- two interleaved scans make one count

  /** Nothing that starts inside an opener's name can be a comment or a closer. */
  lemma InsideOpener(b: Brackets, page: string, tag: string, opener: nat, j: nat)
    requires Sane(b) && TagName(b, tag) && TagAt(b, page, tag, opener) && opener < j < opener + |tag| + 2
    ensures page[j] != ';' && !IsLeft(b, page[j])
  {
    if j < opener + 1 + |tag| {
      var k := j - (opener + 1);
      assert Lower(page[opener + 1 + k]) == Lower(tag[k]);
    }
  }

  lemma {:induction false} SkipOpener(b: Brackets, page: string, tag: string, closer: string, opener: nat, j: nat)
    requires Sane(b) && TagName(b, tag) && TagAt(b, page, tag, opener) && opener < j <= opener + |tag| + 2
    ensures NextTag(b, page, closer, j) == NextTag(b, page, closer, opener + |tag| + 2)
    decreases opener + |tag| + 2 - j
  {
    if j < opener + |tag| + 2 {
      InsideOpener(b, page, tag, opener, j);
      SkipOpener(b, page, tag, closer, opener, j + 1);
    }
  }

  lemma NotOpenerAndCloser(b: Brackets, page: string, tag: string, i: nat)
    requires Sane(b) && TagName(b, tag) && TagAt(b, page, "/" + tag, i)
    ensures !TagAt(b, page, tag, i)
  {
    if TagAt(b, page, tag, i) {
      var closer := "/" + tag;
      assert Lower(page[i + 1 + |tag|]) == Lower(closer[|tag|]);
      if tag != "" {
        assert closer[|tag|] == tag[|tag| - 1];
        SlashesAgree(page, tag, i + 1, |tag|);
      }
    }
  }

  /** A name that agrees with itself shifted by a slash consists of slashes. */
  lemma {:induction false} SlashesAgree(page: string, tag: string, at: nat, n: nat)
    requires SameNoCase(page, at, tag) && SameNoCase(page, at, "/" + tag) && n <= |tag|
    ensures forall k :: 0 <= k < n ==> Lower(tag[k]) == '/'
  {
    if n > 0 {
      SlashesAgree(page, tag, at, n - 1);
      var closer := "/" + tag;
      assert Lower(page[at + (n - 1)]) == Lower(tag[n - 1]) && Lower(page[at + (n - 1)]) == Lower(closer[n - 1]);
    }
  }

  /** With no closer ahead, or only one without an end, the count never balances. */
  lemma {:induction false} NeverBalances(b: Brackets, page: string, tag: string, i: nat, depth: nat)
    requires Sane(b) && TagName(b, tag)
    requires var c := NextTag(b, page, "/" + tag, i); c == -1 || TagEnd(b, page, c) == -1
    ensures Balance(b, page, tag, i, depth) == -1
    decreases |page| - i
  {
    if i >= |page| {
    } else if CommentAt(page, i) {
      NeverBalances(b, page, tag, LineEnd(page, i + 3) + 1, depth);
    } else if TagAt(b, page, "/" + tag, i) {
    } else if TagAt(b, page, tag, i) {
      SkipOpener(b, page, tag, "/" + tag, i, i + 1);
      NeverBalances(b, page, tag, i + |tag| + 2, depth + 1);
    } else {
      NeverBalances(b, page, tag, i + 1, depth);
    }
  }

  lemma TagIsInPage(b: Brackets, page: string, tag: string, i: nat)
    requires NextTag(b, page, tag, i) != -1
    ensures i < |page|
  {
  }

  lemma NextTagStep(b: Brackets, page: string, tag: string, i: nat)
    requires i < |page|
    ensures NextTag(b, page, tag, i) ==
            if CommentAt(page, i) then NextTag(b, page, tag, LineEnd(page, i + 3) + 1)
            else if TagAt(b, page, tag, i) then i
            else NextTag(b, page, tag, i + 1)
  {
  }

  /** What the count does where there is no closer. */
  lemma BalanceMoves(b: Brackets, page: string, tag: string, i: nat, depth: nat)
    requires i < |page| && (CommentAt(page, i) || !TagAt(b, page, "/" + tag, i))
    ensures Balance(b, page, tag, i, depth) ==
            if CommentAt(page, i) then Balance(b, page, tag, LineEnd(page, i + 3) + 1, depth)
            else if TagAt(b, page, tag, i) then Balance(b, page, tag, i + |tag| + 2, depth + 1)
            else Balance(b, page, tag, i + 1, depth)
  {
  }

  /** The count goes on at the next opener when that comes before the next closer. */
  lemma {:induction false} BalanceAtOpener(b: Brackets, page: string, tag: string, i: nat, depth: nat)
    requires Sane(b) && TagName(b, tag)
    requires 0 <= NextTag(b, page, tag, i) < NextTag(b, page, "/" + tag, i)
    ensures var next := NextTag(b, page, tag, i) + |tag| + 2;
            Balance(b, page, tag, i, depth) == Balance(b, page, tag, next, depth + 1)
            && NextTag(b, page, "/" + tag, next) == NextTag(b, page, "/" + tag, i)
    decreases |page| - i
  {
    hide SameNoCase, TagName, Sane, TagEnd, CommentAt, NextTag, Balance, TagAt;
    TagIsInPage(b, page, tag, i);
    NextTagStep(b, page, tag, i);
    NextTagStep(b, page, "/" + tag, i);
    BalanceMoves(b, page, tag, i, depth);
    if CommentAt(page, i) {
      BalanceAtOpener(b, page, tag, LineEnd(page, i + 3) + 1, depth);
    } else if TagAt(b, page, tag, i) {
      SkipOpener(b, page, tag, "/" + tag, i, i + 1);
    } else {
      BalanceAtOpener(b, page, tag, i + 1, depth);
    }
  }

  /** The count goes on at the next closer when no opener comes before it. */
  lemma {:induction false} BalanceAtCloser(b: Brackets, page: string, tag: string, i: nat, depth: nat)
    requires Sane(b) && TagName(b, tag)
    requires var c, o := NextTag(b, page, "/" + tag, i), NextTag(b, page, tag, i); c != -1 && (o == -1 || o > c)
    ensures Balance(b, page, tag, i, depth) == Balance(b, page, tag, NextTag(b, page, "/" + tag, i), depth)
    decreases |page| - i
  {
    if CommentAt(page, i) {
      BalanceAtCloser(b, page, tag, LineEnd(page, i + 3) + 1, depth);
    } else if !TagAt(b, page, "/" + tag, i) {
      BalanceAtCloser(b, page, tag, i + 1, depth);
    }
  }

  /** What the count does at a closer. */
  lemma BalanceStep(b: Brackets, page: string, tag: string, i: nat, depth: nat)
    requires Sane(b) && NextTag(b, page, "/" + tag, i) != -1
    ensures var c := NextTag(b, page, "/" + tag, i);
            Balance(b, page, tag, c, depth) ==
            if TagEnd(b, page, c) == -1 || depth == 0 then TagEnd(b, page, c)
            else Balance(b, page, tag, TagEnd(b, page, c), depth - 1)
  {
    hide TagEnd;
  }

  /** The opener of `page_complex_tag_bounds`, with its short cut for a tag right at `start`. */
  method FindOpener(b: Brackets, page: string, tag: string, start: nat) returns (openStart: int, openEnd: int)
    requires Sane(b)
    ensures openStart == if TagAt(b, page, tag, start) then start else NextTag(b, page, tag, start)
    ensures openEnd == if openStart == -1 then -1 else ContentStart(b, page, tag, start, openStart)
  {
    hide NextTag, TagEnd, SameNoCase;
    openStart := start;
    if openStart + |tag| + 1 < |page| && IsLeft(b, page[openStart]) && SameNoCase(page, openStart + 1, tag)
       && (Whitespace(page[openStart + |tag| + 1]) || IsRight(b, page[openStart + |tag| + 1])) {
      if IsRight(b, page[openStart + |tag| + 1]) {
        openEnd := openStart + |tag| + 1;
      } else {
        openEnd := FindTagEnd(b, page, openStart);
      }
    } else {
      var result;
      result, openStart, openEnd := SimpleTagBounds(b, page, tag, start);
    }
  }

  /** Counts the openers between `tempStart` and the closer at `closeStart`. */
  method CountOpeners(b: Brackets, page: string, tag: string, tempStart: nat, closeStart: nat, opens: nat)
    returns (opensFound: nat)
    requires Sane(b) && TagName(b, tag) && closeStart == NextTag(b, page, "/" + tag, tempStart)
    ensures Balance(b, page, tag, tempStart, opens) == Balance(b, page, tag, closeStart, opensFound)
  {
    hide Balance, NextTag;
    var loopStart := tempStart;
    opensFound := opens;
    while true
      invariant closeStart == NextTag(b, page, "/" + tag, loopStart)
      invariant Balance(b, page, tag, tempStart, opens) == Balance(b, page, tag, loopStart, opensFound)
      decreases |page| - loopStart
    {
      var offset := FindTagStart(b, page, tag, loopStart);
      if offset == -1 || offset > closeStart {
        BalanceAtCloser(b, page, tag, loopStart, opensFound);
        break;
      }
      if offset == closeStart { NotOpenerAndCloser(b, page, tag, offset); }
      BalanceAtOpener(b, page, tag, loopStart, opensFound);
      loopStart := offset + |tag| + 2;
      opensFound := opensFound + 1;
    }
  }

  /** `page_complex_tag_bounds`: one scan finds the next closer, another counts the openers
      passed on the way. Together they answer what the single depth count answers, and the result
      is 1 or, when nothing is found, 0. */
  method ComplexTagBounds(b: Brackets, page: string, tag: string, start: nat) returns (result: int, bounds: Bounds)
    requires Sane(b) && TagName(b, tag)
    ensures bounds == Element(b, page, tag, start) && result == if bounds.Found? then 1 else 0
  {
    hide Balance, NextTag, TagEnd;
    var openStart, openEnd := FindOpener(b, page, tag, start);
    result, bounds := 0, NotFound;
    if openEnd == -1 {
      return;
    }
    var closeStart, tempStart, opensFound := openEnd, openEnd, 0;
    while true
      invariant closeStart == tempStart && 0 <= closeStart && result == 0 && bounds == NotFound
      invariant Balance(b, page, tag, openEnd, 0) == Balance(b, page, tag, closeStart, opensFound)
      decreases |page| - closeStart
    {
      var closed, closeEnd;
      closed, closeStart, closeEnd := SimpleTagBounds(b, page, "/" + tag, closeStart);
      if closed == 0 {
        NeverBalances(b, page, tag, tempStart, opensFound);
        return;
      }
      opensFound := CountOpeners(b, page, tag, tempStart, closeStart, opensFound);
      BalanceStep(b, page, tag, tempStart, opensFound);
      if opensFound == 0 {
        return 1, Found(openStart, closeEnd);
      }
      opensFound := opensFound - 1;
      closeStart := closeEnd;
      tempStart := closeStart;
    }
  }

  // ---------------------------------------------------------------- nested documents

  /** Page text in which elements named `tag` nest properly: text with anything in it that is not part of
      them, comment lines that may hold anything, and elements. An opener is the bracket, the name and
      the character that ends the name; its attributes are text of the element. */
  datatype Body = Empty
                | Text(text: string, rest: Body)
                | Comment(line: string, rest: Body)
                | Nested(opener: string, inner: Body, closer: string, rest: Body)

  /** Whatever follows `text`, a tag could start at `k`. */
  predicate MayStart(b: Brackets, text: string, tag: string, k: nat)
    requires k < |text|
  {
    && IsLeft(b, text[k])
    && (forall j :: 0 <= j < |tag| && k + 1 + j < |text| ==> Lower(text[k + 1 + j]) == Lower(tag[j]))
    && (k + 1 + |tag| < |text| ==> TagEnder(b, text[k + 1 + |tag|]))
  }

  predicate MayComment(text: string, k: nat) {
    forall j :: k <= j < k + 3 && j < |text| ==> text[j] == ';'
  }

  /** Whatever follows `text`, there is no tag, no closer and no comment at any place of it. */
  predicate Inert(b: Brackets, tag: string, text: string) {
    forall k :: 0 <= k < |text| ==>
      && !MayStart(b, text, tag, k) && !MayStart(b, text, "/" + tag, k)
      && !MayComment(text, k)
  }

  predicate IsCloser(b: Brackets, tag: string, closer: string) {
    TagAt(b, closer, "/" + tag, 0) && TagEnd(b, closer, 0) == |closer|
  }

  predicate Proper(b: Brackets, tag: string, body: Body) {
    match body
    case Empty => true
    case Text(text, rest) => Inert(b, tag, text) && Proper(b, tag, rest)
    case Comment(line, rest) => '\n' !in line && Proper(b, tag, rest)
    case Nested(opener, inner, closer, rest) =>
      && TagAt(b, opener, tag, 0) && |opener| == |tag| + 2 && IsCloser(b, tag, closer)
      && Proper(b, tag, inner) && Proper(b, tag, rest)
  }

  function Render(body: Body): string {
    match body
    case Empty => ""
    case Text(text, rest) => text + Render(rest)
    case Comment(line, rest) => ";;;" + line + "\n" + Render(rest)
    case Nested(opener, inner, closer, rest) => opener + (Render(inner) + (closer + Render(rest)))
  }

  /** A tag is one wherever its text stands. */
  lemma TagStands(b: Brackets, page: string, i: nat, text: string, tag: string)
    requires TagAt(b, text, tag, 0) && Holds(page, i, text)
    ensures TagAt(b, page, tag, i)
  {
    forall k | 0 <= k < |text| ensures page[i + k] == text[k] {
      HoldsElement(page, i, text, k);
    }
    forall k | 0 <= k < |tag| ensures Lower(page[i + 1 + k]) == Lower(tag[k]) {
      assert page[i + (1 + k)] == text[1 + k];
    }
  }

  /** The scan for the end of a tag is over at this character. */
  predicate Closes(b: Brackets, c: char, quoted: bool, depth: int) {
    IsRight(b, c) && !quoted && depth == 1
  }

  function QuotedAfter(b: Brackets, c: char, quoted: bool): bool {
    if c == '"' then !quoted else quoted
  }

  function DepthAfter(b: Brackets, c: char, quoted: bool, depth: int): int {
    if quoted then depth else if IsLeft(b, c) then depth + 1 else if IsRight(b, c) then depth - 1 else depth
  }

  /** Where that scan goes on after `i`. */
  function CloseNext(page: string, i: nat): nat
    requires i < |page|
  {
    if page[i] == '\\' then i + 2 else if CommentAt(page, i) then LineEnd(page, i + 2) + 1 else i + 1
  }

  lemma CloseStep(b: Brackets, page: string, i: nat, quoted: bool, depth: int)
    requires Sane(b)
    ensures i < |page| ==> i < CloseNext(page, i)
    ensures CloseOf(b, page, i, quoted, depth) ==
            if i >= |page| then -1
            else if Closes(b, page[i], quoted, depth) then i + 1
            else CloseOf(b, page, CloseNext(page, i), QuotedAfter(b, page[i], quoted),
                         DepthAfter(b, page[i], quoted, depth))
  {
  }

  lemma {:induction false} LastIsRight(b: Brackets, text: string, k: nat, quoted: bool, depth: int)
    requires Sane(b) && CloseOf(b, text, k, quoted, depth) == |text|
    ensures k < |text| && IsRight(b, text[|text| - 1]) && text[|text| - 1] != ';'
    decreases |text| - k
  {
    RightIsNoSemicolon(b);
    hide CloseOf, CloseNext, Sane;
    CloseStep(b, text, k, quoted, depth);
    if !Closes(b, text[k], quoted, depth) {
      LastIsRight(b, text, CloseNext(text, k), QuotedAfter(b, text[k], quoted), DepthAfter(b, text[k], quoted, depth));
    }
  }

  lemma RightIsNoSemicolon(b: Brackets)
    requires Sane(b)
    ensures !IsRight(b, ';')
  {
  }

  lemma CommentStands(page: string, i: nat, text: string, k: nat)
    requires Holds(page, i, text) && k < |text| && text[|text| - 1] != ';'
    ensures CommentAt(page, i + k) == CommentAt(text, k)
    ensures CommentAt(text, k) && LineEnd(text, k + 2) < |text| ==> LineEnd(page, i + k + 2) == i + LineEnd(text, k + 2)
  {
    forall j | 0 <= j < |text| ensures page[i + j] == text[j] {
      HoldsElement(page, i, text, j);
    }
    if CommentAt(page, i + k) {
      assert page[i + (k + 1)] == ';' && page[i + (k + 2)] == ';';
      assert k + 1 < |text| ==> text[k + 1] == ';';
      assert k + 2 < |text| ==> text[k + 2] == ';';
    }
    if CommentAt(text, k) && LineEnd(text, k + 2) < |text| {
      LineEndAt(text, k + 2);
      var e := LineEnd(text, k + 2);
      forall j | i + k + 2 <= j < i + e ensures page[j] != '\n' {
        assert page[i + (j - i)] == text[j - i];
      }
      LineEndIs(page, i + k + 2, i + e);
      assert page[i + e] == '\n';
    }
  }

  lemma CloseNextStands(page: string, i: nat, text: string, k: nat)
    requires Holds(page, i, text) && k < |text| && text[|text| - 1] != ';' && CloseNext(text, k) <= |text|
    ensures i + k < |page| && CloseNext(page, i + k) == i + CloseNext(text, k)
  {
    hide Holds, CommentAt, LineEnd;
    HoldsFits(page, i, text, k);
    CommentStands(page, i, text, k);
  }

  /** The end of a tag is the same wherever its text stands. */
  lemma {:induction false} CloseStands(b: Brackets, page: string, i: nat, text: string, k: nat, quoted: bool,
                                         depth: int)
    requires Sane(b) && Holds(page, i, text) && CloseOf(b, text, k, quoted, depth) == |text|
    ensures CloseOf(b, page, i + k, quoted, depth) == i + |text|
    decreases |text| - k
  {
    hide Holds, CloseOf, CloseNext, Sane, QuotedAfter, DepthAfter;
    LastIsRight(b, text, k, quoted, depth);
    CloseStep(b, text, k, quoted, depth);
    CloseStep(b, page, i + k, quoted, depth);
    HoldsFits(page, i, text, k);
    if !Closes(b, text[k], quoted, depth) {
      var next, quoted', depth' := CloseNext(text, k), QuotedAfter(b, text[k], quoted),
          DepthAfter(b, text[k], quoted, depth);
      LastIsRight(b, text, next, quoted', depth');
      CloseNextStands(page, i, text, k);
      CloseStands(b, page, i, text, next, quoted', depth');
    }
  }

  lemma HoldsFits<T>(s: seq<T>, i: nat, t: seq<T>, k: nat)
    requires Holds(s, i, t) && k < |t|
    ensures i + |t| <= |s| && s[i + k] == t[k]
  {
    HoldsElement(s, i, t, k);
  }

  lemma TagEndStands(b: Brackets, page: string, i: nat, text: string)
    requires Sane(b) && Holds(page, i, text) && TagEnd(b, text, 0) == |text|
    ensures TagEnd(b, page, i) == i + |text|
  {
    hide Holds, CloseOf;
    HoldsFits(page, i, text, 0);
    CloseStands(b, page, i, text, 0, false, 0);
  }

  /** Properly nested text leaves the depth count as it was. */
  lemma {:induction false} BalanceThrough(b: Brackets, page: string, tag: string, body: Body, i: nat, depth: nat)
    requires Sane(b) && TagName(b, tag) && Proper(b, tag, body) && Holds(page, i, Render(body))
    ensures Balance(b, page, tag, i, depth) == Balance(b, page, tag, i + |Render(body)|, depth)
    decreases body
  {
    hide Balance, Holds, TagAt, IsCloser, Inert, TagName, Sane;
    match body
    case Empty =>
    case Text(text, rest) =>
      HoldsParts(page, i, text, Render(rest));
      TextThrough(b, page, tag, text, i, depth, 0);
      BalanceThrough(b, page, tag, rest, i + |text|, depth);
    case Comment(line, rest) =>
      HoldsParts(page, i, ";;;" + line + "\n", Render(rest));
      CommentStep(b, page, tag, line, i, depth);
      BalanceThrough(b, page, tag, rest, i + |line| + 4, depth);
    case Nested(opener, inner, closer, rest) =>
      NestedParts(page, opener, Render(inner), closer, Render(rest), i);
      var j := i + |opener|;
      var k := j + |Render(inner)|;
      NestedStep(b, page, tag, opener, i, depth);
      BalanceThrough(b, page, tag, inner, j, depth + 1);
      ClosingStep(b, page, tag, closer, k, depth);
      BalanceThrough(b, page, tag, rest, k + |closer|, depth);
  }

  /** Where the parts of an element stand. */
  lemma NestedParts(page: string, opener: string, inner: string, closer: string, rest: string, i: nat)
    requires Holds(page, i, opener + (inner + (closer + rest)))
    ensures var j := i + |opener|;
            var k := j + |inner|;
            && Holds(page, i, opener) && Holds(page, j, inner) && Holds(page, k, closer)
            && Holds(page, k + |closer|, rest)
            && |opener + (inner + (closer + rest))| == |opener| + |inner| + |closer| + |rest|
  {
    hide Holds;
    HoldsParts(page, i, opener, inner + (closer + rest));
    HoldsParts(page, i + |opener|, inner, closer + rest);
    HoldsParts(page, i + |opener| + |inner|, closer, rest);
  }

  /** At no place of inert text the count changes. */
  lemma {:induction false} TextThrough(b: Brackets, page: string, tag: string, text: string, i: nat, depth: nat, k: nat)
    requires Inert(b, tag, text) && Holds(page, i, text) && k <= |text|
    ensures Balance(b, page, tag, i + k, depth) == Balance(b, page, tag, i + |text|, depth)
    decreases |text| - k
  {
    hide Holds, Inert, TagAt, CommentAt;
    if k < |text| {
      HoldsFits(page, i, text, k);
      InertStands(b, page, tag, text, i, k);
      TextThrough(b, page, tag, text, i, depth, k + 1);
    }
  }

  lemma InertStands(b: Brackets, page: string, tag: string, text: string, i: nat, k: nat)
    requires Inert(b, tag, text) && Holds(page, i, text) && k < |text|
    ensures !CommentAt(page, i + k) && !TagAt(b, page, tag, i + k) && !TagAt(b, page, "/" + tag, i + k)
  {
    forall j | 0 <= j < |text| ensures page[i + j] == text[j] {
      HoldsElement(page, i, text, j);
    }
    MayStartStands(b, page, tag, text, i, k);
    MayStartStands(b, page, "/" + tag, text, i, k);
    assert !MayComment(text, k);
    var j :| k <= j < k + 3 && j < |text| && text[j] != ';';
    assert page[i + j] != ';';
  }

  lemma MayStartStands(b: Brackets, page: string, tag: string, text: string, i: nat, k: nat)
    requires Holds(page, i, text) && k < |text|
    ensures TagAt(b, page, tag, i + k) ==> MayStart(b, text, tag, k)
  {
    if !TagAt(b, page, tag, i + k) {
      return;
    }
    forall j | 0 <= j < |text| ensures page[i + j] == text[j] {
      HoldsElement(page, i, text, j);
    }
    forall j | 0 <= j < |tag| && k + 1 + j < |text| ensures Lower(text[k + 1 + j]) == Lower(tag[j]) {
      assert page[i + (k + 1 + j)] == text[k + 1 + j];
      assert Lower(page[i + k + 1 + j]) == Lower(tag[j]);
    }
    if k + 1 + |tag| < |text| {
      assert page[i + (k + 1 + |tag|)] == text[k + 1 + |tag|];
    }
  }

  lemma CommentStep(b: Brackets, page: string, tag: string, line: string, i: nat, depth: nat)
    requires '\n' !in line && Holds(page, i, ";;;" + line + "\n")
    ensures Balance(b, page, tag, i, depth) == Balance(b, page, tag, i + |line| + 4, depth)
  {
    HoldsParts(page, i, ";;;" + line, "\n");
    HoldsParts(page, i, ";;;", line);
    assert page[i..i + 3][0] == page[i] && page[i..i + 3][1] == page[i + 1] && page[i..i + 3][2] == page[i + 2];
    forall k | i + 3 <= k < i + 3 + |line| ensures page[k] != '\n' {
      assert page[k] == page[i + 3..i + 3 + |line|][k - (i + 3)];
    }
    LineEndIs(page, i + 3, i + 3 + |line|);
    assert page[i + 3 + |line|] == '\n';
  }

  lemma NestedStep(b: Brackets, page: string, tag: string, opener: string, i: nat, depth: nat)
    requires Sane(b) && TagName(b, tag) && TagAt(b, opener, tag, 0) && |opener| == |tag| + 2 && Holds(page, i, opener)
    ensures Balance(b, page, tag, i, depth) == Balance(b, page, tag, i + |opener|, depth + 1)
  {
    hide Holds, SameNoCase;
    TagStands(b, page, i, opener, tag);
    if TagAt(b, page, "/" + tag, i) { NotOpenerAndCloser(b, page, tag, i); }
    assert page[i] != ';';
  }

  lemma ClosingStep(b: Brackets, page: string, tag: string, closer: string, i: nat, depth: nat)
    requires Sane(b) && TagName(b, tag) && IsCloser(b, tag, closer) && Holds(page, i, closer)
    ensures Balance(b, page, tag, i, depth + 1) == Balance(b, page, tag, i + |closer|, depth)
    ensures Balance(b, page, tag, i, 0) == i + |closer|
  {
    hide Holds, SameNoCase, CloseOf;
    TagStands(b, page, i, closer, "/" + tag);
    TagEndStands(b, page, i, closer);
    assert page[i] != ';';
  }

  /** An opener with its attributes. A name that ends in a bracket has none. */
  predicate IsOpener(b: Brackets, tag: string, opener: string) {
    && TagAt(b, opener, tag, 0) && TagEnd(b, opener, 0) == |opener|
    && (IsRight(b, opener[|tag| + 1]) ==> |opener| == |tag| + 2)
  }

  /** The search from anywhere, when the first opener it meets is at `i`, is the depth count from just
      after that opener. */
  lemma ElementFromOpener(b: Brackets, page: string, tag: string, opener: string, start: nat, i: nat)
    requires Sane(b) && TagName(b, tag) && IsOpener(b, tag, opener) && Holds(page, i, opener)
    requires NextTag(b, page, tag, start) == i
    ensures var end := Balance(b, page, tag, i + |opener|, 0);
            Element(b, page, tag, start) == if end < 0 then NotFound else Found(i, end)
  {
    hide Holds, SameNoCase, CloseOf, Balance;
    TagStands(b, page, i, opener, tag);
    TagEndStands(b, page, i, opener);
    HoldsFits(page, i, opener, |tag| + 1);
    if TagAt(b, page, tag, start) {
      assert page[start] != ';';
    }
    if IsRight(b, page[i + |tag| + 1]) {
      RightBracketPasses(b, page, tag, i + |tag| + 1);
    }
  }

  lemma RightBracketPasses(b: Brackets, page: string, tag: string, i: nat)
    requires Sane(b) && i < |page| && IsRight(b, page[i])
    ensures Balance(b, page, tag, i, 0) == Balance(b, page, tag, i + 1, 0)
  {
  }

  /** Wherever it stands, a properly nested element that comes first after `start` is found whole: the
      bounds are its opener and its own closer, whatever lies between. */
  lemma NestedElementIsFound(b: Brackets, tag: string, before: string, opener: string, body: Body, closer: string,
                             after: string, start: nat)
    requires Sane(b) && TagName(b, tag) && IsOpener(b, tag, opener) && Proper(b, tag, body) && IsCloser(b, tag, closer)
    requires NextTag(b, before + (opener + (Render(body) + (closer + after))), tag, start) == |before|
    ensures Element(b, before + (opener + (Render(body) + (closer + after))), tag, start)
         == Found(|before|, |before| + |opener| + |Render(body)| + |closer|)
  {
    hide Balance, Element, Holds, Render, NextTag, IsOpener, IsCloser, TagName, Sane, Proper;
    var element := opener + (Render(body) + (closer + after));
    var page, i := before + element, |before|;
    HoldsAt(before, element, "");
    assert before + element + "" == page;
    NestedParts(page, opener, Render(body), closer, after, i);
    ElementFromOpener(b, page, tag, opener, start, i);
    BalanceThrough(b, page, tag, body, i + |opener|, 0);
    ClosingStep(b, page, tag, closer, i + |opener| + |Render(body)|, 0);
  }

  /** A first opener with only properly nested text after it is not found. */
  lemma UnclosedElementIsNotFound(b: Brackets, tag: string, before: string, opener: string, body: Body, start: nat)
    requires Sane(b) && TagName(b, tag) && IsOpener(b, tag, opener) && Proper(b, tag, body)
    requires NextTag(b, before + (opener + Render(body)), tag, start) == |before|
    ensures Element(b, before + (opener + Render(body)), tag, start) == NotFound
  {
    hide Element, Holds, Render, NextTag, IsOpener, TagName, Sane, Proper;
    var page, i := before + (opener + Render(body)), |before|;
    HoldsAt(before, opener + Render(body), "");
    assert before + (opener + Render(body)) + "" == page;
    HoldsParts(page, i, opener, Render(body));
    ElementFromOpener(b, page, tag, opener, start, i);
    BalanceThrough(b, page, tag, body, i + |opener|, 0);
  }
}

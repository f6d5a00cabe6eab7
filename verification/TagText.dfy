/** Tags as they are written in a page, and finding them whatever the case of their names
    (libmhtml/pages.c). */
module TagText {
  import opened CText
  import opened Slices
  import opened TagMatcher
  import Markup

  // ---------------------------------------------------------------- where a tag ends

  /** No comment starts in a string: the scan for the end of a tag would take it for one. */
  predicate QuietUnits(us: seq<Markup.Unit>) {
    us == [] || ((us[0].Bare? ==> !CommentAt(Markup.RenderUnits(us), 0)) && QuietUnits(us[1..]))
  }

  predicate Quiet(x: Markup.Inside) {
    match x
    case End => true
    case String(units, rest) => QuietUnits(units) && Quiet(rest)
    case Group(_, inner, _, rest) => Quiet(inner) && Quiet(rest)
    case _ => Quiet(x.rest)
  }

  lemma CloseAtUnit(b: Brackets, page: string, i: nat, u: Markup.Unit, depth: int)
    requires Sane(b) && Markup.ProperUnit(u) && Holds(page, i, Markup.RenderUnit(u))
    requires u.Bare? ==> !CommentAt(page, i)
    ensures CloseOf(b, page, i, true, depth) == CloseOf(b, page, i + |Markup.RenderUnit(u)|, true, depth)
  {
    HoldsElement(page, i, Markup.RenderUnit(u), 0);
  }

  lemma {:induction false} CloseThroughUnits(b: Brackets, page: string, i: nat, us: seq<Markup.Unit>, depth: int)
    requires Sane(b) && Markup.ProperUnits(us) && QuietUnits(us) && Holds(page, i, Markup.RenderUnits(us))
    requires At(page, i + |Markup.RenderUnits(us)|) != ';'
    ensures CloseOf(b, page, i, true, depth) == CloseOf(b, page, i + |Markup.RenderUnits(us)|, true, depth)
    decreases |us|
  {
    hide CloseOf, Holds, Sane, CommentAt, Markup.RenderUnit, Markup.ProperUnit;
    if us != [] {
      HoldsParts(page, i, Markup.RenderUnit(us[0]), Markup.RenderUnits(us[1..]));
      UnitIsSomething(us[0]);
      Markup.CommentInside(page, i, Markup.RenderUnits(us), 0);
      CloseAtUnit(b, page, i, us[0], depth);
      CloseThroughUnits(b, page, i + |Markup.RenderUnit(us[0])|, us[1..], depth);
    }
  }

  lemma UnitIsSomething(u: Markup.Unit)
    ensures Markup.RenderUnit(u) != ""
  {
  }

  lemma CloseAtQuote(b: Brackets, page: string, i: nat, quoted: bool, depth: int)
    requires Sane(b) && i < |page| && page[i] == '"'
    ensures CloseOf(b, page, i, quoted, depth) == CloseOf(b, page, i + 1, !quoted, depth)
  {
  }

  lemma CloseAtText(b: Brackets, page: string, i: nat, depth: int)
    requires Sane(b) && i < |page| && Markup.Ordinary(b, page[i]) && !CommentAt(page, i)
    ensures CloseOf(b, page, i, false, depth) == CloseOf(b, page, i + 1, false, depth)
  {
  }

  lemma CloseAtComment(b: Brackets, page: string, i: nat, quoted: bool, depth: int)
    requires Sane(b) && CommentAt(page, i)
    ensures CloseOf(b, page, i, quoted, depth) == CloseOf(b, page, LineEnd(page, i + 2) + 1, quoted, depth)
  {
  }

  lemma CloseAtBracket(b: Brackets, page: string, i: nat, depth: int)
    requires Sane(b) && i < |page|
    ensures IsLeft(b, page[i]) ==> CloseOf(b, page, i, false, depth) == CloseOf(b, page, i + 1, false, depth + 1)
    ensures IsRight(b, page[i]) ==>
              CloseOf(b, page, i, false, depth) ==
              if depth == 1 then i + 1 else CloseOf(b, page, i + 1, false, depth - 1)
  {
  }

  lemma {:induction false} CloseThroughText(b: Brackets, page: string, i: nat, text: string, depth: int)
    requires Sane(b) && Holds(page, i, text) && forall k :: 0 <= k < |text| ==> Markup.Ordinary(b, text[k])
    requires forall j :: i <= j < i + |text| ==> !CommentAt(page, j)
    ensures CloseOf(b, page, i, false, depth) == CloseOf(b, page, i + |text|, false, depth)
    decreases |text|
  {
    hide CloseOf, Sane, CommentAt, Markup.Ordinary, Holds;
    if text != "" {
      assert [text[0]] + text[1..] == text;
      HoldsParts(page, i, [text[0]], text[1..]);
      HoldsOne(page, i, text[0]);
      CloseAtText(b, page, i, depth);
      CloseThroughText(b, page, i + 1, text[1..], depth);
    }
  }

  lemma CloseThroughProperText(b: Brackets, page: string, i: nat, x: Markup.Inside, depth: int)
    requires Sane(b) && x.Text? && Markup.Proper(b, x) && Holds(page, i, Markup.Render(x)) && Holds(page, i, x.text)
    requires At(page, i + |Markup.Render(x)|) != ';'
    ensures CloseOf(b, page, i, false, depth) == CloseOf(b, page, i + |x.text|, false, depth)
  {
    hide CloseOf, Sane, CommentAt, Markup.Ordinary, Holds;
    forall j | i <= j < i + |x.text| ensures !CommentAt(page, j) {
      var k := j - i;
      Markup.CommentInside(page, i, Markup.Render(x), k);
      assert Markup.Ordinary(b, x.text[k]) && !CommentAt(x.text + Markup.Render(x.rest), k);
    }
    CloseThroughText(b, page, i, x.text, depth);
  }

  lemma CloseThroughString(b: Brackets, page: string, i: nat, units: seq<Markup.Unit>, depth: int)
    requires Sane(b) && Markup.ProperUnits(units) && QuietUnits(units)
    requires Holds(page, i, ['"'] + (Markup.RenderUnits(units) + ['"']))
    ensures CloseOf(b, page, i, false, depth)
         == CloseOf(b, page, i + |['"'] + (Markup.RenderUnits(units) + ['"'])|, false, depth)
  {
    hide CloseOf, Holds, Sane, Markup.RenderUnits, Markup.ProperUnits, QuietUnits;
    var body := Markup.RenderUnits(units);
    HoldsParts(page, i, ['"'], body + ['"']);
    HoldsOne(page, i, '"');
    HoldsParts(page, i + 1, body, ['"']);
    HoldsOne(page, i + 1 + |body|, '"');
    CloseAtQuote(b, page, i, false, depth);
    CloseThroughUnits(b, page, i + 1, units, depth);
    CloseAtQuote(b, page, i + 1 + |body|, true, depth);
  }

  lemma CloseThroughComment(b: Brackets, page: string, i: nat, line: string, depth: int)
    requires Sane(b) && '\n' !in line && Holds(page, i, ";;;" + (line + ['\n']))
    ensures CloseOf(b, page, i, false, depth) == CloseOf(b, page, i + |";;;" + (line + ['\n'])|, false, depth)
  {
    hide CloseOf, Holds, Sane;
    var end := i + 3 + |line|;
    Markup.CommentParts(page, i, line);
    LineEndIs(page, i + 2, end);
    LineEndHere(page, end);
    CloseAtComment(b, page, i, false, depth);
  }

  lemma {:induction false} CloseThroughFirst(b: Brackets, page: string, i: nat, x: Markup.Inside, depth: int)
    requires Sane(b) && depth > 0 && !x.End? && Markup.Proper(b, x) && Quiet(x)
    requires Holds(page, i, Markup.Render(x)) && Holds(page, i, Markup.First(x))
    requires At(page, i + |Markup.Render(x)|) != ';'
    ensures CloseOf(b, page, i, false, depth) == CloseOf(b, page, i + |Markup.First(x)|, false, depth)
    decreases x, 0
  {
    hide CloseOf, Holds, Sane, CommentAt, Markup.Ordinary, Markup.Render, Markup.RenderUnits, QuietUnits;
    match x
    case Text(text, _) => CloseThroughProperText(b, page, i, x, depth);
    case Escape(c, _) => CloseAtEscape(b, page, i, c, depth);
    case String(units, _) => CloseThroughString(b, page, i, units, depth);
    case Comment(line, _) => CloseThroughComment(b, page, i, line, depth);
    case Group(open, inner, close, _) => CloseThroughGroup(b, page, i, open, inner, close, depth);
  }

  lemma CloseAtEscape(b: Brackets, page: string, i: nat, c: char, depth: int)
    requires Holds(page, i, ['\\', c])
    ensures CloseOf(b, page, i, false, depth) == CloseOf(b, page, i + 2, false, depth)
  {
    HoldsElement(page, i, ['\\', c], 0);
  }

  /** Whatever stands between brackets, strings with brackets in them included, leaves the count of open
      brackets as it was. */
  lemma {:induction false} CloseThrough(b: Brackets, page: string, i: nat, x: Markup.Inside, depth: int)
    requires Sane(b) && depth > 0 && Markup.Proper(b, x) && Quiet(x) && Holds(page, i, Markup.Render(x))
    requires At(page, i + |Markup.Render(x)|) != ';'
    ensures CloseOf(b, page, i, false, depth) == CloseOf(b, page, i + |Markup.Render(x)|, false, depth)
    decreases x, 1
  {
    hide CloseOf, Holds, Sane, Markup.Render, Markup.Proper, Markup.First, Quiet;
    if x.End? {
      NothingInside(x);
    } else {
      Markup.FirstThenRest(x);
      Markup.RestIsProper(b, x);
      RestIsQuiet(x);
      HoldsParts(page, i, Markup.First(x), Markup.Render(x.rest));
      CloseThroughFirst(b, page, i, x, depth);
      CloseThrough(b, page, i + |Markup.First(x)|, x.rest, depth);
    }
  }

  lemma NothingInside(x: Markup.Inside)
    requires x.End?
    ensures Markup.Render(x) == ""
  {
  }

  lemma RestIsQuiet(x: Markup.Inside)
    requires !x.End? && Quiet(x)
    ensures Quiet(x.rest)
  {
  }

  lemma {:induction false} CloseThroughGroup(b: Brackets, page: string, i: nat, open: char, inner: Markup.Inside,
                                                close: char, depth: int)
    requires Sane(b) && depth >= 0 && IsLeft(b, open) && IsRight(b, close) && Markup.Proper(b, inner) && Quiet(inner)
    requires Holds(page, i, [open] + (Markup.Render(inner) + [close]))
    ensures var end := i + |[open] + (Markup.Render(inner) + [close])|;
            CloseOf(b, page, i, false, depth) == if depth == 0 then end else CloseOf(b, page, end, false, depth)
    decreases inner, 2
  {
    hide CloseOf, Holds, Markup.Render, Markup.Proper, Quiet;
    var body := Markup.Render(inner);
    HoldsParts(page, i, [open], body + [close]);
    HoldsOne(page, i, open);
    HoldsParts(page, i + 1, body, [close]);
    HoldsOne(page, i + 1 + |body|, close);
    CloseAtBracket(b, page, i, depth);
    CloseThrough(b, page, i + 1, inner, depth + 1);
    CloseAtBracket(b, page, i + 1 + |body|, depth + 1);
  }

  /** A bracket ends with the bracket that closes it, whatever stands between. */
  lemma TagEndIsItsBracket(b: Brackets, page: string, i: nat, open: char, inner: Markup.Inside, close: char)
    requires Sane(b) && IsLeft(b, open) && IsRight(b, close) && Markup.Proper(b, inner) && Quiet(inner)
    requires Holds(page, i, [open] + (Markup.Render(inner) + [close]))
    ensures TagEnd(b, page, i) == i + |Markup.Render(inner)| + 2
  {
    hide CloseOf, Holds, Markup.Render, Markup.Proper, Quiet;
    CloseThroughGroup(b, page, i, open, inner, close, 0);
    HoldsParts(page, i, [open], Markup.Render(inner) + [close]);
    HoldsOne(page, i, open);
  }

  // ---------------------------------------------------------------- which tag it is

  /** A name that ends where whitespace or a closing bracket comes. */
  predicate WholeName(b: Brackets, name: string) {
    forall k :: 0 <= k < |name| ==> !Whitespace(name[k]) && !IsRight(b, name[k])
  }

  /** Where a bracket, a whole name and its end are written, there is the tag whose name is the same but for
      case, and no other. */
  lemma TagIsItsName(b: Brackets, page: string, i: nat, open: char, name: string, end: char, tag: string)
    requires Sane(b) && IsLeft(b, open) && (Whitespace(end) || IsRight(b, end))
    requires WholeName(b, name) && WholeName(b, tag)
    requires Holds(page, i, [open] + (name + [end]))
    ensures TagAt(b, page, tag, i) <==> SameText(name, tag)
  {
    var t := [open] + (name + [end]);
    forall k | 0 <= k < |t| ensures page[i + k] == t[k] { HoldsElement(page, i, t, k); }
    assert forall k :: 0 <= k < |name| ==> t[k + 1] == name[k];
    forall k | 0 <= k < |name| ensures page[i + 1 + k] == name[k] {
      assert page[i + (k + 1)] == t[k + 1];
    }
    assert page[i + 1 + |name|] == page[i + (|name| + 1)] == end;
    assert |tag| < |name| ==> page[i + 1 + |tag|] == name[|tag|];
    if TagAt(b, page, tag, i) {
      if |tag| < |name| {
        assert false;
      } else if |name| < |tag| {
        LowerIsBlind(end, tag[|name|]);
        assert Lower(page[i + 1 + |name|]) == Lower(tag[|name|]);
        EndIsNoName(b, end, tag[|name|]);
        assert false;
      }
      forall k | 0 <= k < |name| ensures SameLetter(name[k], tag[k]) {
        assert Lower(page[i + 1 + k]) == Lower(tag[k]);
        LowerIsBlind(name[k], tag[k]);
      }
    } else if SameText(name, tag) {
      forall k | 0 <= k < |tag| ensures Lower(page[i + 1 + k]) == Lower(tag[k]) {
        LowerIsBlind(name[k], tag[k]);
      }
      assert false;
    }
  }

  lemma EndIsNoName(b: Brackets, end: char, c: char)
    requires Sane(b) && (Whitespace(end) || IsRight(b, end)) && !Whitespace(c) && !IsRight(b, c)
    ensures !SameLetter(end, c)
  {
  }

  /** What may follow the name in a tag: nothing, or attributes after whitespace. */
  predicate Attributes(b: Brackets, x: Markup.Inside) {
    Markup.Proper(b, x) && Quiet(x) && (x.End? || (x.Text? && x.text != "" && Whitespace(x.text[0])))
  }

  /** A tag as it is written: bracket, name, attributes, bracket. */
  datatype Tag = Tag(open: char, name: string, attributes: Markup.Inside, close: char)

  function Write(t: Tag): string {
    [t.open] + (t.name + (Markup.Render(t.attributes) + [t.close]))
  }

  predicate ProperTag(b: Brackets, t: Tag) {
    && IsLeft(b, t.open) && IsRight(b, t.close) && Attributes(b, t.attributes)
    && forall k :: 0 <= k < |t.name| ==>
         Markup.Ordinary(b, t.name[k]) && !Whitespace(t.name[k]) && t.name[k] != ';'
  }

  /** The tag is properly written, and its name is `tag` but for case. */
  predicate Names(b: Brackets, t: Tag, tag: string) {
    ProperTag(b, t) && WholeName(b, tag) && SameText(t.name, tag)
  }

  /** What stands between the brackets of a tag is its name, then its attributes. */
  lemma TagIsMarkup(b: Brackets, t: Tag)
    requires ProperTag(b, t)
    ensures var x := Markup.Text(t.name, t.attributes);
            Markup.Proper(b, x) && Quiet(x) && Write(t) == [t.open] + (Markup.Render(x) + [t.close])
  {
    hide Markup.Ordinary;
    Regroup(t.name, Markup.Render(t.attributes), [t.close]);
    forall k | 0 <= k < |t.name| ensures !CommentAt(t.name + Markup.Render(t.attributes), k) {
      assert (t.name + Markup.Render(t.attributes))[k] == t.name[k];
    }
  }

  /** A written tag is an opener of its name, in any case, whatever its attributes. */
  lemma WrittenOpener(b: Brackets, t: Tag, tag: string)
    requires Sane(b) && Names(b, t, tag)
    ensures IsOpener(b, tag, Write(t))
  {
    hide TagEnd, TagAt, Markup.Render, Holds, Attributes, Markup.Proper, Quiet;
    var x := Markup.Text(t.name, t.attributes);
    var text := Write(t);
    TagIsMarkup(b, t);
    assert "" + text + "" == text;
    HoldsAt("", text, "");
    TagEndIsItsBracket(b, text, 0, t.open, x, t.close);
    NameComesFirst(b, t);
    TagIsItsName(b, text, 0, t.open, t.name, text[|t.name| + 1], tag);
  }

  lemma NameComesFirst(b: Brackets, t: Tag)
    requires Sane(b) && ProperTag(b, t)
    ensures var text := Write(t);
            && |text| == |t.name| + |Markup.Render(t.attributes)| + 2
            && (if t.attributes.End? then text[|t.name| + 1] == t.close && |text| == |t.name| + 2
                else Whitespace(text[|t.name| + 1]))
            && Holds(text, 0, [t.open] + (t.name + [text[|t.name| + 1]]))
            && WholeName(b, t.name) && |Markup.Render(Markup.Text(t.name, t.attributes))| == |text| - 2
  {
    var text := Write(t);
    if t.attributes.Text? {
      assert Markup.Render(t.attributes)[0] == t.attributes.text[0];
    }
    assert text[0..|t.name| + 2] == [t.open] + (t.name + [text[|t.name| + 1]]);
  }

  /** A tag written with a slash before its name is a closer. */
  lemma WrittenCloser(b: Brackets, t: Tag, tag: string)
    requires Sane(b) && Names(b, t, tag)
    ensures IsCloser(b, tag, Write(t.(name := "/" + t.name)))
  {
    hide Markup.Render, Write;
    SameLength(t.name, tag);
    assert Names(b, t.(name := "/" + t.name), "/" + tag);
    WrittenOpener(b, t.(name := "/" + t.name), "/" + tag);
  }

  /** A written element is found from its opener, whatever the case of its names, whatever the attributes, and
      whatever nests in it. */
  lemma WrittenElementIsFound(b: Brackets, tag: string, before: string, first: Tag, body: Body, last: Tag,
                              after: string)
    requires Sane(b) && TagName(b, tag) && TagMatcher.Proper(b, tag, body)
    requires Names(b, first, tag) && Names(b, last, tag)
    ensures var opener, closer := Write(first), Write(last.(name := "/" + last.name));
            Element(b, before + (opener + (TagMatcher.Render(body) + (closer + after))), tag, |before|)
            == Found(|before|, |before| + |opener| + |TagMatcher.Render(body)| + |closer|)
  {
    hide Write, Names, TagMatcher.Render, TagMatcher.Proper, TagName, Sane, Element, NextTag, IsOpener, IsCloser, Holds,
         TagAt;
    var opener, closer := Write(first), Write(last.(name := "/" + last.name));
    WrittenOpener(b, first, tag);
    WrittenCloser(b, last, tag);
    var rest := TagMatcher.Render(body) + (closer + after);
    HoldsAt(before, opener, rest);
    Regroup(before, opener, rest);
    OpenerIsNext(b, before + (opener + rest), |before|, opener, tag);
    NestedElementIsFound(b, tag, before, opener, body, closer, after, |before|);
  }

  lemma OpenerIsNext(b: Brackets, page: string, i: nat, opener: string, tag: string)
    requires Sane(b) && IsOpener(b, tag, opener) && Holds(page, i, opener)
    ensures NextTag(b, page, tag, i) == i
  {
    hide Holds, SameNoCase, CloseOf;
    TagStands(b, page, i, opener, tag);
    assert page[i] != ';';
  }

  // ---------------------------------------------------------------- case

  /** Two pages that differ only in case have the same brackets, whitespace and comments. */
  lemma SamePlaces(b: Brackets, page: string, page': string, i: nat)
    requires Sane(b) && SameText(page, page') && i < |page|
    ensures IsLeft(b, page[i]) == IsLeft(b, page'[i]) && IsRight(b, page[i]) == IsRight(b, page'[i])
    ensures Whitespace(page[i]) == Whitespace(page'[i])
    ensures CommentAt(page, i) == CommentAt(page', i)
    ensures (page[i] == '"' <==> page'[i] == '"') && (page[i] == '\\' <==> page'[i] == '\\')
  {
    assert SameLetter(page[i], page'[i]);
    assert i + 2 < |page| ==> SameLetter(page[i + 1], page'[i + 1]) && SameLetter(page[i + 2], page'[i + 2]);
  }

  lemma TagAtBlind(b: Brackets, page: string, page': string, tag: string, tag': string, i: nat)
    requires Sane(b) && SameText(page, page') && SameText(tag, tag')
    ensures TagAt(b, page, tag, i) == TagAt(b, page', tag', i)
  {
    if i + 1 + |tag| < |page| {
      SamePlaces(b, page, page', i);
      SamePlaces(b, page, page', i + 1 + |tag|);
      forall k | 0 <= k < |tag|
        ensures Lower(page[i + 1 + k]) == Lower(tag[k]) <==> Lower(page'[i + 1 + k]) == Lower(tag'[k])
      {
        LowerIsBlind(page[i + 1 + k], page'[i + 1 + k]);
        LowerIsBlind(tag[k], tag'[k]);
      }
    }
  }

  lemma {:induction false} NextTagBlind(b: Brackets, page: string, page': string, tag: string, tag': string, i: nat)
    requires Sane(b) && SameText(page, page') && SameText(tag, tag')
    ensures NextTag(b, page, tag, i) == NextTag(b, page', tag', i)
    decreases |page| - i
  {
    if i < |page| {
      hide TagAt, CommentAt, LineEnd, SameText, Sane;
      SameLength(page, page');
      SamePlaces(b, page, page', i);
      LineEndBlind(page, page', i + 3);
      TagAtBlind(b, page, page', tag, tag', i);
      NextTagBlind(b, page, page', tag, tag', if CommentAt(page, i) then LineEnd(page, i + 3) + 1 else i + 1);
    }
  }

  lemma SameLength(s: string, t: string)
    requires SameText(s, t)
    ensures |s| == |t| && SameText("/" + s, "/" + t)
  {
  }

  lemma {:induction false} CloseBlind(b: Brackets, page: string, page': string, i: nat, quoted: bool, depth: int)
    requires Sane(b) && SameText(page, page')
    ensures CloseOf(b, page, i, quoted, depth) == CloseOf(b, page', i, quoted, depth)
    decreases |page| - i
  {
    hide CloseOf, CommentAt, LineEnd, SameText, Sane, IsLeft, IsRight;
    SameLength(page, page');
    CloseStep(b, page, i, quoted, depth);
    CloseStep(b, page', i, quoted, depth);
    if i < |page| {
      SamePlaces(b, page, page', i);
      LineEndBlind(page, page', i + 2);
      if !Closes(b, page[i], quoted, depth) {
        CloseBlind(b, page, page', CloseNext(page, i), QuotedAfter(b, page[i], quoted),
                   DepthAfter(b, page[i], quoted, depth));
      }
    }
  }

  lemma TagEndBlind(b: Brackets, page: string, page': string, i: nat)
    requires Sane(b) && SameText(page, page')
    ensures TagEnd(b, page, i) == TagEnd(b, page', i)
  {
    if i < |page| { SamePlaces(b, page, page', i); }
    CloseBlind(b, page, page', i, false, 0);
  }

  lemma {:induction false} BalanceBlind(b: Brackets, page: string, page': string, tag: string, tag': string, i: nat,
                                           depth: nat)
    requires Sane(b) && SameText(page, page') && SameText(tag, tag')
    ensures Balance(b, page, tag, i, depth) == Balance(b, page', tag', i, depth)
    decreases |page| - i
  {
    hide TagAt, CommentAt, LineEnd, SameText, Sane, TagEnd;
    SameLength(page, page');
    SameLength(tag, tag');
    if i < |page| {
      SamePlaces(b, page, page', i);
      LineEndBlind(page, page', i + 3);
      TagAtBlind(b, page, page', tag, tag', i);
      TagAtBlind(b, page, page', "/" + tag, "/" + tag', i);
      TagEndBlind(b, page, page', i);
      if CommentAt(page, i) {
        BalanceBlind(b, page, page', tag, tag', LineEnd(page, i + 3) + 1, depth);
      } else if TagAt(b, page, "/" + tag, i) {
        var end := TagEnd(b, page, i);
        if end != -1 && depth > 0 { BalanceBlind(b, page, page', tag, tag', end, depth - 1); }
      } else if TagAt(b, page, tag, i) {
        BalanceBlind(b, page, page', tag, tag', i + |tag| + 2, depth + 1);
      } else {
        BalanceBlind(b, page, page', tag, tag', i + 1, depth);
      }
    }
  }

  /** Case does not matter: in pages that differ only in case, names that differ only in case lead to the same
      element. */
  lemma ElementBlind(b: Brackets, page: string, page': string, tag: string, tag': string, start: nat)
    requires Sane(b) && SameText(page, page') && SameText(tag, tag')
    ensures Element(b, page, tag, start) == Element(b, page', tag', start)
  {
    hide TagAt, TagEnd, Balance, NextTag, SameText, Sane, IsRight;
    SameLength(tag, tag');
    TagAtBlind(b, page, page', tag, tag', start);
    NextTagBlind(b, page, page', tag, tag', start);
    var opener := if TagAt(b, page, tag, start) then start else NextTag(b, page, tag, start);
    if opener != -1 {
      TagFits(b, page, tag, opener);
      TagAtBlind(b, page, page', tag, tag', opener);
      TagEndBlind(b, page, page', opener);
      SamePlaces(b, page, page', opener + |tag| + 1);
      var content := ContentStart(b, page, tag, start, opener);
      if content != -1 { BalanceBlind(b, page, page', tag, tag', content, 0); }
    }
  }

  lemma TagFits(b: Brackets, page: string, tag: string, i: nat)
    requires TagAt(b, page, tag, i)
    ensures i + |tag| + 1 < |page|
  {
  }
}

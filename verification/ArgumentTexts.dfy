/** Argument texts as they are written in a page: names and values that may be strings, bracketed
    expressions or any mixture, with whitespace between them (libmhtml/parser.c). */
module ArgumentTexts {
  import opened Options
  import opened CText
  import opened Slices
  import opened Arguments
  import opened ArgumentLists
  import ArrayText
  import ArrayVars
  import Markup
  import Reading

  /** Whitespace between two things. A carriage return alone would not end what is before it. */
  predicate Gap(g: string) {
    && AllWhitespace(g)
    && (g != "" && g[0] == '\r' ==> |g| > 1 && g[1] == '\n')
  }

  /** A name, perhaps a value after an equals sign with whitespace around it, and whitespace after it all. */
  datatype Item = Bare(name: Reading.Expr, gap: string)
                | Valued(name: Reading.Expr, before: string, after: string, value: Reading.Expr, gap: string)

  function WriteItem(x: Item): string {
    match x
    case Bare(name, gap) => Reading.Write(name) + gap
    case Valued(name, before, after, value, gap) =>
      Reading.Write(name) + (before + (['='] + (after + (Reading.Write(value) + gap))))
  }

  function WriteAll(xs: seq<Item>): string {
    if xs == [] then "" else WriteItem(xs[0]) + WriteAll(xs[1..])
  }

  predicate Proper(b: Brackets, x: Item) {
    && Reading.Starts(x.name) && Reading.Proper(b, x.name, true) && Gap(x.gap)
    && (x.Valued? ==> Reading.Starts(x.value) && Reading.Proper(b, x.value, false) && Gap(x.before) && Gap(x.after))
  }

  /** Every argument is proper, and all but the last have whitespace after them. */
  predicate AllProper(b: Brackets, xs: seq<Item>) {
    forall k :: 0 <= k < |xs| ==> Proper(b, xs[k]) && (k < |xs| - 1 ==> xs[k].gap != "")
  }

  function GivenBy(x: Item): Given {
    Given(Reading.ValueOf(x.name), if x.Bare? then None else Some(Reading.ValueOf(x.value)))
  }

  function AllGivenBy(xs: seq<Item>): seq<Given> {
    seq(|xs|, k requires 0 <= k < |xs| => GivenBy(xs[k]))
  }

  // ---------------------------------------------------------------- whitespace

  /** Reading an argument starts by skipping whitespace, so that it does not matter how much there is. */
  lemma ReadArgAfterBlanks(b: Brackets, s: string, i: nat, j: nat, assignments: bool)
    requires SkipBlanks(s, i) == SkipBlanks(s, j)
    ensures ReadArg(b, s, i, assignments) == ReadArg(b, s, j, assignments)
  {
  }

  lemma NothingToRead(b: Brackets, s: string, i: nat, assignments: bool)
    requires CString(s) && i <= |s| && SkipBlanks(s, i) == |s|
    ensures Snarf(b, s, i, assignments) == []
  {
    if i < |s| {
      var r := Start(|s|);
      assert Turn(b, s, r, assignments, false) == Stop(r);
      assert ReadSexp(b, s, i, assignments, false) == (None, |s|);
      assert ReadArg(b, s, i, assignments) == (None, None, |s|);
    }
  }

  /** Gathering can start anywhere in the whitespace before an argument. */
  lemma SnarfAfterBlanks(b: Brackets, s: string, i: nat, j: nat, assignments: bool)
    requires CString(s) && i <= |s| && j <= |s| && SkipBlanks(s, i) == SkipBlanks(s, j)
    ensures Snarf(b, s, i, assignments) == Snarf(b, s, j, assignments)
  {
    hide ReadArg;
    if SkipBlanks(s, i) == |s| {
      NothingToRead(b, s, i, assignments);
      NothingToRead(b, s, j, assignments);
    } else {
      ReadArgAfterBlanks(b, s, i, j, assignments);
    }
  }

  // ---------------------------------------------------------------- one argument

  /** What is left of a gap after it has ended an expression. */
  lemma GapEnds(s: string, mid: nat, g: string, stop: bool)
    requires Gap(g) && Holds(s, mid, g)
    requires g == "" ==> mid == |s| || (mid < |s| && stop && s[mid] == '=')
    ensures Reading.EndsAt(s, mid, stop)
    ensures var n := Reading.AfterEnd(s, mid) - mid;
            0 <= n <= |g| && Holds(s, mid + n, g[n..]) && AllWhitespace(g[n..])
  {
    HoldsRoom(s, mid, g);
    if g != "" { HoldsElement(s, mid, g, 0); }
    if |g| > 1 { HoldsElement(s, mid, g, 1); }
    var n := Reading.AfterEnd(s, mid) - mid;
    assert n == if g == "" then 0 else if g[0] == '\r' then 2 else 1;
    hide Holds;
    assert g[..n] + g[n..] == g;
    HoldsParts(s, mid, g[..n], g[n..]);
  }

  /** An expression, with whitespace after it up to something else. */
  lemma ReadWithGap(b: Brackets, s: string, i: nat, e: Reading.Expr, g: string, stop: bool)
    requires Sane(b) && Reading.Starts(e) && Reading.Proper(b, e, stop) && Gap(g)
    requires Holds(s, i, Reading.Write(e)) && Holds(s, i + |Reading.Write(e)|, g)
    requires var end := i + |Reading.Write(e)| + |g|;
             end < |s| ==> !Whitespace(s[end]) && (g == "" ==> stop && s[end] == '=')
    ensures var (v, next) := ReadSexp(b, s, i, stop, false);
            var end := i + |Reading.Write(e)| + |g|;
            v == Some(Reading.ValueOf(e)) && next <= end && SkipBlanks(s, next) == end
  {
    hide ReadSexp, Holds, Reading.Proper, Reading.Write, Reading.ValueOf, Sane, Reading.EndsAt, Reading.AfterEnd, Gap,
         AllWhitespace, SkipBlanks;
    var mid := i + |Reading.Write(e)|;
    HoldsRoom(s, mid, g);
    GapEnds(s, mid, g, stop);
    Reading.ReadExpression(b, s, i, e, stop);
    var next := Reading.AfterEnd(s, mid);
    BlanksSkipped(s, next, g[next - mid..]);
  }

  lemma ReadSexpAfterBlanks(b: Brackets, s: string, i: nat, j: nat, stop: bool)
    requires SkipBlanks(s, i) == SkipBlanks(s, j)
    ensures ReadSexp(b, s, i, stop, false) == ReadSexp(b, s, j, stop, false)
  {
  }

  /** Where an argument may end: at the end of the text, or after whitespace, before something else. */
  predicate ItemEnds(s: string, end: nat, x: Item) {
    end < |s| ==> x.gap != "" && !Whitespace(s[end]) && s[end] != '='
  }

  lemma ReadBareItem(b: Brackets, s: string, i: nat, x: Item)
    requires Sane(b) && x.Bare? && Proper(b, x) && Holds(s, i, WriteItem(x)) && ItemEnds(s, i + |WriteItem(x)|, x)
    ensures ReadArg(b, s, i, true) == (Some(Reading.ValueOf(x.name)), None, i + |WriteItem(x)|)
  {
    hide ReadSexp, Holds, Reading.Proper, Reading.Write, Reading.ValueOf, Sane, Gap, SkipBlanks;
    HoldsRoom(s, i, WriteItem(x));
    HoldsParts(s, i, Reading.Write(x.name), x.gap);
    ReadWithGap(b, s, i, x.name, x.gap, true);
  }

  /** What an argument with a value is made of. */
  lemma ValuedParts(s: string, i: nat, x: Item)
    requires x.Valued? && Holds(s, i, WriteItem(x))
    ensures var mid := i + |Reading.Write(x.name)|;
            var equals := mid + |x.before|;
            var start := equals + 1 + |x.after|;
            && Holds(s, i, Reading.Write(x.name)) && Holds(s, mid, x.before) && equals < |s| && s[equals] == '='
            && Holds(s, equals + 1, x.after) && Holds(s, start, Reading.Write(x.value))
            && Holds(s, start + |Reading.Write(x.value)|, x.gap)
            && start + |Reading.Write(x.value)| + |x.gap| == i + |WriteItem(x)| <= |s|
  {
    hide Holds, Reading.Write;
    HoldsRoom(s, i, WriteItem(x));
    PartsOf(s, i, Reading.Write(x.name), x.before, x.after, Reading.Write(x.value), x.gap);
  }

  lemma PartsOf(s: string, i: nat, name: string, before: string, after: string, value: string, gap: string)
    requires Holds(s, i, name + (before + (['='] + (after + (value + gap)))))
    ensures var mid := i + |name|;
            var equals := mid + |before|;
            var start := equals + 1 + |after|;
            && Holds(s, i, name) && Holds(s, mid, before) && equals < |s| && s[equals] == '='
            && Holds(s, equals + 1, after) && Holds(s, start, value) && Holds(s, start + |value|, gap)
            && start + |value| + |gap| == i + |name + (before + (['='] + (after + (value + gap))))|
  {
    hide Holds;
    HoldsParts(s, i, name, before + (['='] + (after + (value + gap))));
    HoldsAround(s, i + |name|, before, '=', after + (value + gap));
    HoldsParts(s, i + |name| + |before| + 1, after, value + gap);
    HoldsParts(s, i + |name| + |before| + 1 + |after|, value, gap);
  }

  lemma ReadValuedItem(b: Brackets, s: string, i: nat, x: Item)
    requires Sane(b) && x.Valued? && Proper(b, x) && Holds(s, i, WriteItem(x)) && ItemEnds(s, i + |WriteItem(x)|, x)
    ensures var (name, value, next) := ReadArg(b, s, i, true);
            var end := i + |WriteItem(x)|;
            && name == Some(Reading.ValueOf(x.name)) && value == Some(Reading.ValueOf(x.value))
            && next <= end && SkipBlanks(s, next) == end
  {
    hide ReadSexp, Holds, Reading.Proper, Reading.Write, Reading.ValueOf, Sane, SkipBlanks, WriteItem, Gap, Whitespace;
    EqualsIsSolid();
    ItemEndsSolid(s, i + |WriteItem(x)|, x);
    GapIsBlank(x.after);
    ValuedParts(s, i, x);
    var equals := i + |Reading.Write(x.name)| + |x.before|;
    var start := equals + 1 + |x.after|;
    ReadWithGap(b, s, i, x.name, x.before, true);
    ExpressionStarts(b, s, start, x.value, false);
    BlanksSkipped(s, equals + 1, x.after);
    NoBlanksAt(s, start);
    ReadSexpAfterBlanks(b, s, equals + 1, start, false);
    ReadWithGap(b, s, start, x.value, x.gap, false);
  }

  lemma EqualsIsSolid()
    ensures !Whitespace('=')
  {
  }

  lemma ItemEndsSolid(s: string, end: nat, x: Item)
    requires ItemEnds(s, end, x)
    ensures end < |s| ==> x.gap != "" && !Whitespace(s[end])
  {
  }

  lemma GapIsBlank(g: string)
    requires Gap(g)
    ensures AllWhitespace(g)
  {
  }

  lemma ExpressionStarts(b: Brackets, s: string, i: nat, e: Reading.Expr, stop: bool)
    requires Sane(b) && Reading.Starts(e) && Reading.Proper(b, e, stop) && Holds(s, i, Reading.Write(e))
    ensures i < |s| && !Whitespace(s[i]) && (stop ==> s[i] != '=')
  {
    Reading.StartsSolid(b, s, i, e, stop);
    Reading.NotEmptyFirst(e);
    HoldsElement(s, i, Reading.Write(e), 0);
  }

  lemma ReadItem(b: Brackets, s: string, i: nat, x: Item)
    requires Sane(b) && Proper(b, x) && Holds(s, i, WriteItem(x)) && ItemEnds(s, i + |WriteItem(x)|, x)
    ensures var (name, value, next) := ReadArg(b, s, i, true);
            var end := i + |WriteItem(x)|;
            && name == Some(GivenBy(x).name) && value == GivenBy(x).value
            && next <= end && SkipBlanks(s, next) == SkipBlanks(s, end)
  {
    hide ReadArg, Holds, Proper, WriteItem, Reading.ValueOf, SkipBlanks, Sane;
    var end := i + |WriteItem(x)|;
    if end < |s| { NoBlanksAt(s, end); }
    if x.Bare? {
      ReadBareItem(b, s, i, x);
    } else {
      HoldsRoom(s, i, WriteItem(x));
      ReadValuedItem(b, s, i, x);
      NoBlanksAt(s, end);
    }
  }

  // ---------------------------------------------------------------- all arguments

  lemma WriteAllParts(b: Brackets, s: string, i: nat, xs: seq<Item>)
    requires Sane(b) && xs != [] && AllProper(b, xs) && i <= |s| && s[i..] == WriteAll(xs)
    ensures var end := i + |WriteItem(xs[0])|;
            && i < |s| && Holds(s, i, WriteItem(xs[0])) && end <= |s| && s[end..] == WriteAll(xs[1..])
            && ItemEnds(s, end, xs[0])
  {
    hide WriteItem, Proper, Holds;
    var end := i + |WriteItem(xs[0])|;
    SuffixParts(s, i, WriteItem(xs[0]), WriteAll(xs[1..]));
    HoldsRoom(s, i, WriteItem(xs[0]));
    ItemStarts(b, s, i, xs[0]);
    if |xs| > 1 {
      assert xs[1..][0] == xs[1];
      SuffixParts(s, end, WriteItem(xs[1]), WriteAll(xs[1..][1..]));
      ItemStarts(b, s, end, xs[1]);
    } else {
      assert |s[end..]| == |s| - end;
    }
  }

  lemma ItemStarts(b: Brackets, s: string, i: nat, x: Item)
    requires Sane(b) && Proper(b, x) && Holds(s, i, WriteItem(x))
    ensures i < |s| && !Whitespace(s[i]) && s[i] != '='
  {
    hide Holds, Reading.Write, Reading.Proper, Gap, Sane;
    if x.Bare? {
      HoldsParts(s, i, Reading.Write(x.name), x.gap);
    } else {
      ValuedParts(s, i, x);
    }
    ExpressionStarts(b, s, i, x.name, true);
  }

  lemma RestIsProper(b: Brackets, xs: seq<Item>)
    requires xs != [] && AllProper(b, xs)
    ensures Proper(b, xs[0]) && AllProper(b, xs[1..])
  {
  }

  /** Gathering the arguments of a text as it is written gives all names and values in order: strings without
      their quotes, bracketed expressions whole. */
  lemma {:induction false} SnarfWritten(b: Brackets, s: string, i: nat, xs: seq<Item>)
    requires Sane(b) && CString(s) && AllProper(b, xs) && i <= |s| && s[i..] == WriteAll(xs)
    ensures Snarf(b, s, i, true) == AllGivenBy(xs)
    decreases |xs|
  {
    hide ReadArg, WriteItem, Proper, AllProper, Holds, Sane, CString, GivenBy, SkipBlanks;
    if xs == [] {
      assert |s[i..]| == |s| - i;
    } else {
      var x, rest := xs[0], xs[1..];
      var end := i + |WriteItem(x)|;
      RestIsProper(b, xs);
      WriteAllParts(b, s, i, xs);
      ReadItem(b, s, i, x);
      ReadArgMovesOn(b, s, i, true);
      SnarfAfterBlanks(b, s, ReadArg(b, s, i, true).2, end, true);
      SnarfWritten(b, s, end, rest);
      assert AllGivenBy(xs) == [GivenBy(x)] + AllGivenBy(rest);
    }
  }

  /** So an argument may be a bracketed expression: it is gathered as it stands if and only if it holds neither
      comments nor carriage returns. */
  lemma BracketedArgument(b: Brackets, name: Reading.Expr, open: char, inner: Markup.Inside, close: char)
    requires Sane(b) && Reading.Starts(name) && Reading.Proper(b, name, true)
    requires IsLeft(b, open) && IsRight(b, close) && Markup.Proper(b, inner)
    requires CString(Reading.Write(name) + (['='] + ([open] + (Markup.Render(inner) + [close]))))
    ensures var e := [open] + (Markup.Render(inner) + [close]);
            Snarf(b, Reading.Write(name) + (['='] + e), 0, true) == [Given(Reading.ValueOf(name), Some(e))]
            <==> Reading.Tidy(inner)
  {
    hide Snarf, Markup.Render, Reading.Gathered, Reading.Tidy, Markup.Proper, Reading.Write, Reading.ValueOf, CString,
         Sane, Reading.Proper;
    var value := Reading.Bracketed(open, inner, close, Reading.Done);
    Reading.BracketedIs(b, open, inner, close);
    var x := Valued(name, "", "", value, "");
    var s := Reading.Write(name) + (['='] + ([open] + (Markup.Render(inner) + [close])));
    assert WriteAll([]) == "" && WriteAll([x]) == WriteItem(x) + "" == WriteItem(x);
    assert "" + Reading.Write(value) + "" == Reading.Write(value);
    assert WriteItem(x) == s && s[0..] == s;
    SnarfWritten(b, s, 0, [x]);
    assert AllGivenBy([x]) == [GivenBy(x)];
  }

  // ---------------------------------------------------------------- what the package holds

  /** The name, as symbols keep names, is not that of one of the two lists. */
  predicate OrdinaryName(name: string) {
    SymName(name) != "*PVARS*" && SymName(name) != "*PVALS*"
  }

  /** An argument is stored where its name refers to, and nothing else is, but for the two lists. */
  lemma ArgumentIsStored(p: Package, g: Given, numberOf: string -> int, other: string)
    requires g.value.Some? && OrdinaryName(ArrayVars.RefOf(g.name, numberOf).base) && OrdinaryName(other)
    ensures var r, p' := ArrayVars.RefOf(g.name, numberOf), Recorded(p, g, numberOf);
            && Values(p', r.base) == ArrayVars.StoredAt(Values(p, r.base), r.index, g.value.value)
            && (SymName(other) != SymName(r.base) ==> Values(p', other) == Values(p, other))
  {
    hide SymName;
    ListNames();
  }

  /** An argument without a value is only made known. */
  lemma BareArgumentIsKnown(p: Package, g: Given, numberOf: string -> int, other: string)
    requires g.value.None? && OrdinaryName(other)
    ensures var p' := Recorded(p, g, numberOf);
            && SymName(g.name) in p' && Values(p', other) == Values(p, other)
  {
    hide SymName;
    ListNames();
  }

  /** The argument does not refer to the variable. */
  predicate LeavesAlone(g: Given, name: string, numberOf: string -> int) {
    g.value.None? || (OrdinaryName(ArrayVars.RefOf(g.name, numberOf).base)
                      && SymName(ArrayVars.RefOf(g.name, numberOf).base) != SymName(name))
  }

  lemma {:induction false} LeftAlone(p: Package, gs: seq<Given>, numberOf: string -> int, name: string)
    requires OrdinaryName(name) && forall k :: 0 <= k < |gs| ==> LeavesAlone(gs[k], name, numberOf)
    ensures Values(RecordedAll(p, gs, numberOf), name) == Values(p, name)
    decreases |gs|
  {
    hide Recorded, SymName;
    if gs != [] {
      if gs[0].value.Some? {
        ArgumentIsStored(p, gs[0], numberOf, name);
      } else {
        BareArgumentIsKnown(p, gs[0], numberOf, name);
      }
      LeftAlone(Recorded(p, gs[0], numberOf), gs[1..], numberOf, name);
    }
  }

  lemma {:induction false} RecordedBoth(p: Package, first: seq<Given>, rest: seq<Given>, numberOf: string -> int)
    ensures RecordedAll(p, first + rest, numberOf) == RecordedAll(RecordedAll(p, first, numberOf), rest, numberOf)
    decreases |first|
  {
    hide Recorded;
    if first == [] {
      assert first + rest == rest;
    } else {
      assert (first + rest)[1..] == first[1..] + rest;
      RecordedBoth(Recorded(p, first[0], numberOf), first[1..], rest, numberOf);
    }
  }

  /** After all arguments have been gathered, the variable of each that has a plain name of its own has the value
      given to it. */
  lemma ArgumentHasItsValue(gs: seq<Given>, k: nat, numberOf: string -> int)
    requires k < |gs| && gs[k].value.Some? && '[' !in gs[k].name && OrdinaryName(gs[k].name)
    requires forall j :: 0 <= j < |gs| && j != k ==> LeavesAlone(gs[j], gs[k].name, numberOf)
    ensures Values(RecordedAll(map[], gs, numberOf), gs[k].name) == [gs[k].value.value]
  {
    hide SymName, Recorded, OrdinaryName;
    var g, before, after := gs[k], gs[..k], gs[k + 1..];
    assert gs == before + ([g] + after);
    RecordedBoth(map[], before, [g] + after, numberOf);
    RecordedBoth(RecordedAll(map[], before, numberOf), [g], after, numberOf);
    LeftAlone(map[], before, numberOf, g.name);
    var p := RecordedAll(map[], before, numberOf);
    ArrayText.PlainName(g.name, numberOf);
    ArgumentIsStored(p, g, numberOf, g.name);
    ArrayVars.StoredInFirst([], g.value.value);
    assert [g][1..] == [];
    LeftAlone(Recorded(p, g, numberOf), after, numberOf, g.name);
  }

  // ---------------------------------------------------------------- the printed form

  /** Arguments are printed with an equals sign and quotes if they have a value, and one blank between them. */
  lemma PrintedPair(a: Arg, c: Arg)
    requires a.value != "" && c.value == ""
    ensures Print([a, c]) == a.name + "=" + ("\"" + Escape(a.value) + "\"") + ([' '] + c.name)
    ensures Print([c, a]) == c.name + ([' '] + (a.name + "=" + ("\"" + Escape(a.value) + "\"")))
  {
    assert [a, c][1..] == [c] && [c, a][1..] == [a];
  }

  /** Quotes and backslashes get a backslash, nothing else does. */
  lemma {:induction false} EscapedLength(v: string)
    ensures |Escape(v)| == |v| + multiset(v)['"'] + multiset(v)['\\']
  {
    if v != "" {
      EscapedLength(v[1..]);
      assert v == [v[0]] + v[1..];
    }
  }
}

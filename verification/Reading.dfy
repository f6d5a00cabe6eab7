/** What the reader of libmhtml/parser.c makes of well-formed expressions: bracketed ones, quoted ones,
    and the text between them. */
module Reading {
  import opened Options
  import opened CText
  import opened Slices
  import opened Arguments
  import Markup

  // ---------------------------------------------------------------- between brackets

  function GatheredUnit(u: Markup.Unit): string {
    match u
    case Bare(c) => if c == '\r' then "" else [c]
    case Escaped(c) => ['\\', c]
  }

  function GatheredUnits(us: seq<Markup.Unit>): string {
    if us == [] then "" else GatheredUnit(us[0]) + GatheredUnits(us[1..])
  }

  /** Between brackets everything is kept, save carriage returns and comments. */
  function Gathered(x: Markup.Inside): string {
    match x
    case End => ""
    case Text(text, rest) => DropReturns(text) + Gathered(rest)
    case Escape(c, rest) => ['\\', c] + Gathered(rest)
    case String(units, rest) => ['"'] + (GatheredUnits(units) + (['"'] + Gathered(rest)))
    case Comment(_, rest) => ['\n'] + Gathered(rest)
    case Group(open, inner, close, rest) => [open] + (Gathered(inner) + ([close] + Gathered(rest)))
  }

  /** No carriage returns, other than behind a backslash, and no comments. */
  predicate Tidy(x: Markup.Inside) {
    match x
    case End => true
    case Text(text, rest) => '\r' !in text && Tidy(rest)
    case Escape(_, rest) => Tidy(rest)
    case String(units, rest) => Markup.Bare('\r') !in units && Tidy(rest)
    case Comment(_, _) => false
    case Group(_, inner, _, rest) => Tidy(inner) && Tidy(rest)
  }

  lemma {:induction false} UnitsGathered(us: seq<Markup.Unit>)
    ensures |GatheredUnits(us)| <= |Markup.RenderUnits(us)|
    ensures GatheredUnits(us) == Markup.RenderUnits(us) <==> Markup.Bare('\r') !in us
  {
    if us != [] {
      UnitsGathered(us[1..]);
      var g, r := GatheredUnit(us[0]), Markup.RenderUnit(us[0]);
      if |g| == |r| {
        assert g == r;
        assert (g + GatheredUnits(us[1..]))[|g|..] == GatheredUnits(us[1..]);
        assert (r + Markup.RenderUnits(us[1..]))[|r|..] == Markup.RenderUnits(us[1..]);
      }
      assert us == [us[0]] + us[1..];
    }
  }

  lemma SameTail(a: string, x: string, y: string)
    ensures a + x == a + y <==> x == y
  {
    assert (a + x)[|a|..] == x && (a + y)[|a|..] == y;
  }

  lemma SameParts(a: string, b: string, x: string, y: string)
    requires |a| <= |b| && |x| <= |y|
    ensures |a + x| <= |b + y|
    ensures a + x == b + y <==> a == b && x == y
  {
    if a + x == b + y {
      assert |a| == |b|;
      assert (a + x)[..|a|] == a && (b + y)[..|a|] == b;
      assert (a + x)[|a|..] == x && (b + y)[|a|..] == y;
    }
  }

  /** So what is between brackets is kept as it is exactly if it is tidy. */
  lemma {:induction false} GatheredIs(x: Markup.Inside)
    ensures |Gathered(x)| <= |Markup.Render(x)|
    ensures Gathered(x) == Markup.Render(x) <==> Tidy(x)
  {
    match x
    case End =>
    case Text(text, rest) =>
      GatheredIs(rest);
      DropReturnsIs(text);
      SameParts(DropReturns(text), text, Gathered(rest), Markup.Render(rest));
    case Escape(c, rest) =>
      GatheredIs(rest);
      SameTail(['\\', c], Gathered(rest), Markup.Render(rest));
    case String(units, rest) =>
      GatheredIs(rest);
      UnitsGathered(units);
      var g, r := ['"'] + Gathered(rest), ['"'] + Markup.Render(rest);
      SameTail(['"'], Gathered(rest), Markup.Render(rest));
      SameParts(GatheredUnits(units), Markup.RenderUnits(units), g, r);
      SameTail(['"'], GatheredUnits(units) + g, Markup.RenderUnits(units) + r);
    case Comment(line, rest) =>
      GatheredIs(rest);
    case Group(open, inner, close, rest) =>
      GatheredIs(inner);
      GatheredIs(rest);
      var g, r := [close] + Gathered(rest), [close] + Markup.Render(rest);
      SameTail([close], Gathered(rest), Markup.Render(rest));
      SameParts(Gathered(inner), Markup.Render(inner), g, r);
      SameTail([open], Gathered(inner) + g, Markup.Render(inner) + r);
  }

  // ---------------------------------------------------------------- the scan between brackets

  /** In a string between brackets. */
  predicate InString(r: Reader) {
    r.quoted && r.depth > 0
  }

  /** Between brackets, outside a string. */
  predicate InBrackets(r: Reader) {
    !r.quoted && r.depth > 0
  }

  lemma TurnUnit(b: Brackets, s: string, r: Reader, u: Markup.Unit, stop: bool, one: bool)
    requires Sane(b) && InString(r) && Markup.ProperUnit(u) && Holds(s, r.i, Markup.RenderUnit(u))
    ensures Turn(b, s, r, stop, one)
         == Go(r.(i := r.i + |Markup.RenderUnit(u)|, text := r.text + GatheredUnit(u)))
  {
    var e := Markup.RenderUnit(u);
    assert s[r.i] == e[0] && (|e| == 2 ==> s[r.i + 1] == e[1]);
    assert r.text + "" == r.text;
  }

  lemma {:induction false} ScanUnits(b: Brackets, s: string, r: Reader, us: seq<Markup.Unit>, stop: bool, one: bool)
    requires Sane(b) && InString(r) && Markup.ProperUnits(us) && Holds(s, r.i, Markup.RenderUnits(us))
    ensures Scan(b, s, r, stop, one)
         == Scan(b, s, r.(i := r.i + |Markup.RenderUnits(us)|, text := r.text + GatheredUnits(us)), stop, one)
    decreases |us|
  {
    hide Scan, Turn, Holds, Sane, Markup.RenderUnit, GatheredUnit, Markup.ProperUnit;
    if us == [] {
      assert r.text + "" == r.text;
    } else {
      HoldsParts(s, r.i, Markup.RenderUnit(us[0]), Markup.RenderUnits(us[1..]));
      TurnUnit(b, s, r, us[0], stop, one);
      ScanTurn(b, s, r, stop, one);
      var r' := r.(i := r.i + |Markup.RenderUnit(us[0])|, text := r.text + GatheredUnit(us[0]));
      ScanUnits(b, s, r', us[1..], stop, one);
      Regroup(r.text, GatheredUnit(us[0]), GatheredUnits(us[1..]));
    }
  }

  lemma TurnAtString(b: Brackets, s: string, r: Reader, stop: bool, one: bool)
    requires Sane(b) && r.depth > 0 && r.i < |s| && s[r.i] == '"'
    ensures Turn(b, s, r, stop, one) == Go(r.(i := r.i + 1, quoted := !r.quoted, text := r.text + ['"']))
  {
  }

  lemma TurnAtEscape(b: Brackets, s: string, r: Reader, c: char, stop: bool, one: bool)
    requires Sane(b) && InBrackets(r) && c != '\0' && Holds(s, r.i, ['\\', c])
    ensures Turn(b, s, r, stop, one) == Go(r.(i := r.i + 2, text := r.text + ['\\', c]))
  {
    assert s[r.i] == ['\\', c][0] && s[r.i + 1] == ['\\', c][1];
  }

  lemma TurnAtText(b: Brackets, s: string, r: Reader, stop: bool, one: bool)
    requires Sane(b) && InBrackets(r) && r.i < |s| && Markup.Ordinary(b, s[r.i]) && !CommentAt(s, r.i)
    ensures Turn(b, s, r, stop, one) == Go(r.(i := r.i + 1, text := r.text + DropReturns([s[r.i]])))
  {
    assert DropReturns([s[r.i]]) == if s[r.i] == '\r' then "" else [s[r.i]];
    assert r.text + "" == r.text;
  }

  lemma TurnAtOpen(b: Brackets, s: string, r: Reader, stop: bool, one: bool)
    requires Sane(b) && !r.quoted && r.i < |s| && IsLeft(b, s[r.i])
    ensures Turn(b, s, r, stop, one) == Go(r.(i := r.i + 1, text := r.text + [s[r.i]], depth := r.depth + 1))
  {
  }

  lemma TurnAtClose(b: Brackets, s: string, r: Reader, stop: bool, one: bool)
    requires Sane(b) && InBrackets(r) && r.i < |s| && IsRight(b, s[r.i])
    ensures var r' := r.(i := r.i + 1, text := r.text + [s[r.i]], depth := r.depth - 1);
            Turn(b, s, r, stop, one) == if one && r.depth == 1 then Stop(r') else Go(r')
  {
  }

  /** A comment line is passed over up to its newline, which is kept. */
  lemma ScanComment(b: Brackets, s: string, r: Reader, line: string, stop: bool, one: bool)
    requires Sane(b) && InBrackets(r) && '\n' !in line && Holds(s, r.i, ";;;" + (line + ['\n']))
    ensures Scan(b, s, r, stop, one)
         == Scan(b, s, r.(i := r.i + |line| + 4, text := r.text + ['\n']), stop, one)
  {
    hide Scan, Turn, Holds, LineEnd;
    var end := r.i + 3 + |line|;
    Markup.CommentParts(s, r.i, line);
    LineEndIs(s, r.i + 3, end);
    TurnAtComment(b, s, r, stop, one);
    ScanTurn(b, s, r, stop, one);
    LineEndHere(s, end);
    TurnAtText(b, s, r.(i := end), stop, one);
    ScanTurn(b, s, r.(i := end), stop, one);
    assert DropReturns(['\n']) == ['\n'] by { assert ['\n'][1..] == ""; }
  }

  lemma TurnAtComment(b: Brackets, s: string, r: Reader, stop: bool, one: bool)
    requires Sane(b) && !r.quoted && CommentAt(s, r.i)
    ensures Turn(b, s, r, stop, one) == Go(r.(i := LineEnd(s, r.i + 3)))
  {
  }

  lemma TextSplits(s: string, i: nat, text: string)
    requires Holds(s, i, text) && text != ""
    ensures i < |s| && s[i] == text[0] && Holds(s, i + 1, text[1..])
    ensures DropReturns(text) == DropReturns([text[0]]) + DropReturns(text[1..])
  {
    hide Holds, DropReturns, Escape;
    HeadOf(text);
    assert [text[0]] + text[1..] == text;
    HoldsParts(s, i, [text[0]], text[1..]);
    HoldsOne(s, i, text[0]);
  }

  /** Ordinary text between brackets. */
  lemma {:induction false} ScanText(b: Brackets, s: string, r: Reader, text: string, stop: bool, one: bool)
    requires Sane(b) && InBrackets(r) && Holds(s, r.i, text)
    requires forall k :: 0 <= k < |text| ==> Markup.Ordinary(b, text[k])
    requires forall j :: r.i <= j < r.i + |text| ==> !CommentAt(s, j)
    ensures Scan(b, s, r, stop, one)
         == Scan(b, s, r.(i := r.i + |text|, text := r.text + DropReturns(text)), stop, one)
    decreases |text|
  {
    hide Scan, Turn, Sane, CommentAt, Holds, Markup.Ordinary, DropReturns;
    if text == "" {
      DropReturnsIs(text);
      assert r.text + "" == r.text;
    } else {
      TextSplits(s, r.i, text);
      TurnAtText(b, s, r, stop, one);
      ScanTurn(b, s, r, stop, one);
      var d := DropReturns([text[0]]);
      ScanText(b, s, r.(i := r.i + 1, text := r.text + d), text[1..], stop, one);
      Regroup(r.text, d, DropReturns(text[1..]));
    }
  }

  /** The first piece, as it is gathered. */
  function FirstGathered(x: Markup.Inside): string
    requires !x.End?
  {
    match x
    case Text(text, _) => DropReturns(text)
    case Escape(c, _) => ['\\', c]
    case String(units, _) => ['"'] + (GatheredUnits(units) + ['"'])
    case Comment(_, _) => ['\n']
    case Group(open, inner, close, _) => [open] + (Gathered(inner) + [close])
  }

  lemma GatheredFirst(x: Markup.Inside)
    requires !x.End?
    ensures Gathered(x) == FirstGathered(x) + Gathered(x.rest)
  {
    hide DropReturns, GatheredUnits;
  }

  lemma NothingInside(x: Markup.Inside)
    requires x.End?
    ensures Markup.Render(x) == "" && Gathered(x) == ""
  {
  }

  /** Whatever stands between brackets is gathered, and the scan is between the brackets again after it. */
  lemma {:induction false} ScanInside(b: Brackets, s: string, r: Reader, x: Markup.Inside, stop: bool, one: bool)
    requires Sane(b) && InBrackets(r) && Markup.Proper(b, x) && Holds(s, r.i, Markup.Render(x))
    requires var end := r.i + |Markup.Render(x)|; end < |s| && s[end] != ';'
    ensures Scan(b, s, r, stop, one)
         == Scan(b, s, r.(i := r.i + |Markup.Render(x)|, text := r.text + Gathered(x)), stop, one)
    decreases x, 1
  {
    hide Scan, Holds, Sane, CommentAt, Markup.Ordinary, Markup.Render, Gathered, Markup.First, FirstGathered,
         Markup.Proper;
    if x.End? {
      NothingInside(x);
      assert r.text + "" == r.text;
    } else {
      Markup.FirstThenRest(x);
      GatheredFirst(x);
      Markup.RestIsProper(b, x);
      HoldsParts(s, r.i, Markup.First(x), Markup.Render(x.rest));
      ScanFirst(b, s, r, x, stop, one);
      var r' := r.(i := r.i + |Markup.First(x)|, text := r.text + FirstGathered(x));
      ScanInside(b, s, r', x.rest, stop, one);
      Regroup(r.text, FirstGathered(x), Gathered(x.rest));
    }
  }

  lemma {:induction false} ScanFirst(b: Brackets, s: string, r: Reader, x: Markup.Inside, stop: bool, one: bool)
    requires Sane(b) && InBrackets(r) && Markup.Proper(b, x) && !x.End? && Holds(s, r.i, Markup.Render(x))
    requires var end := r.i + |Markup.Render(x)|; end < |s| && s[end] != ';'
    requires Holds(s, r.i, Markup.First(x))
    ensures Scan(b, s, r, stop, one)
         == Scan(b, s, r.(i := r.i + |Markup.First(x)|, text := r.text + FirstGathered(x)), stop, one)
    decreases x, 0
  {
    hide Scan, Turn, Holds, Sane, CommentAt, Markup.Ordinary, Markup.Render, Markup.RenderUnits, GatheredUnits,
         Gathered, DropReturns;
    match x
    case Text(text, rest) => ScanProperText(b, s, r, text, rest, stop, one);
    case Escape(c, rest) =>
      TurnAtEscape(b, s, r, c, stop, one);
      ScanTurn(b, s, r, stop, one);
    case String(units, rest) => ScanStringInside(b, s, r, units, stop, one);
    case Comment(line, rest) => ScanComment(b, s, r, line, stop, one);
    case Group(open, inner, close, rest) => ScanGroup(b, s, r, open, inner, close, stop, one);
  }

  lemma ScanProperText(b: Brackets, s: string, r: Reader, text: string, rest: Markup.Inside, stop: bool, one: bool)
    requires Sane(b) && InBrackets(r) && Markup.Proper(b, Markup.Text(text, rest)) && Holds(s, r.i, text)
    requires Holds(s, r.i, Markup.Render(Markup.Text(text, rest)))
    requires var end := r.i + |Markup.Render(Markup.Text(text, rest))|; end < |s| && s[end] != ';'
    ensures Scan(b, s, r, stop, one)
         == Scan(b, s, r.(i := r.i + |text|, text := r.text + DropReturns(text)), stop, one)
  {
    hide Scan, Holds, Sane, CommentAt, Markup.Ordinary, DropReturns;
    forall j | r.i <= j < r.i + |text| ensures !CommentAt(s, j) {
      var k := j - r.i;
      Markup.CommentInside(s, r.i, Markup.Render(Markup.Text(text, rest)), k);
      assert Markup.Ordinary(b, text[k]) && !CommentAt(text + Markup.Render(rest), k);
    }
    ScanText(b, s, r, text, stop, one);
  }

  /** A string between brackets is kept with its quotes. */
  lemma ScanStringInside(b: Brackets, s: string, r: Reader, units: seq<Markup.Unit>, stop: bool, one: bool)
    requires Sane(b) && InBrackets(r) && Markup.ProperUnits(units)
    requires Holds(s, r.i, ['"'] + (Markup.RenderUnits(units) + ['"']))
    ensures var end := r.i + |['"'] + (Markup.RenderUnits(units) + ['"'])|;
            Scan(b, s, r, stop, one)
            == Scan(b, s, r.(i := end, text := r.text + (['"'] + (GatheredUnits(units) + ['"']))), stop, one)
  {
    hide Scan, Turn, Holds, Sane, Markup.RenderUnits, GatheredUnits, Markup.ProperUnits;
    var body := Markup.RenderUnits(units);
    HoldsParts(s, r.i, ['"'], body + ['"']);
    HoldsOne(s, r.i, '"');
    HoldsParts(s, r.i + 1, body, ['"']);
    HoldsOne(s, r.i + 1 + |body|, '"');
    TurnAtString(b, s, r, stop, one);
    ScanTurn(b, s, r, stop, one);
    var r1 := r.(i := r.i + 1, quoted := true, text := r.text + ['"']);
    ScanUnits(b, s, r1, units, stop, one);
    var r2 := r1.(i := r1.i + |body|, text := r1.text + GatheredUnits(units));
    TurnAtString(b, s, r2, stop, one);
    ScanTurn(b, s, r2, stop, one);
    Regroup(r.text, ['"'], GatheredUnits(units));
    Regroup(r.text, ['"'] + GatheredUnits(units), ['"']);
    Regroup(['"'], GatheredUnits(units), ['"']);
  }

  /** A bracketed expression is kept with its brackets. When only one is wanted, it ends the scan. */
  lemma {:induction false} ScanGroup(b: Brackets, s: string, r: Reader, open: char, inner: Markup.Inside, close: char,
                                        stop: bool, one: bool)
    requires Sane(b) && !r.quoted && r.depth >= 0 && IsLeft(b, open) && IsRight(b, close) && Markup.Proper(b, inner)
    requires Holds(s, r.i, [open] + (Markup.Render(inner) + [close]))
    ensures var end := r.i + |[open] + (Markup.Render(inner) + [close])|;
            var r' := r.(i := end, text := r.text + ([open] + (Gathered(inner) + [close])));
            Scan(b, s, r, stop, one) == if one && r.depth == 0 then r' else Scan(b, s, r', stop, one)
    decreases inner, 2
  {
    hide Scan, Turn, Holds, Sane, Markup.Proper, Markup.Render, Gathered;
    var body := Markup.Render(inner);
    HoldsParts(s, r.i, [open], body + [close]);
    HoldsOne(s, r.i, open);
    HoldsParts(s, r.i + 1, body, [close]);
    HoldsOne(s, r.i + 1 + |body|, close);
    TurnAtOpen(b, s, r, stop, one);
    ScanTurn(b, s, r, stop, one);
    var r1 := r.(i := r.i + 1, text := r.text + [open], depth := r.depth + 1);
    RightIsPlain(b, close);
    ScanInside(b, s, r1, inner, stop, one);
    var r2 := r1.(i := r1.i + |body|, text := r1.text + Gathered(inner));
    TurnAtClose(b, s, r2, stop, one);
    ScanTurn(b, s, r2, stop, one);
    Regroup(r.text, [open], Gathered(inner));
    Regroup(r.text, [open] + Gathered(inner), [close]);
    Regroup([open], Gathered(inner), [close]);
  }

  lemma RightIsPlain(b: Brackets, c: char)
    requires Sane(b) && IsRight(b, c)
    ensures c != ';'
  {
  }

  // ---------------------------------------------------------------- whole expressions

  /** An expression: characters, characters behind a backslash, strings, bracketed text, and carriage returns
      with something else than a newline after them. */
  datatype Expr = Done
                | Atom(c: char, rest: Expr)
                | Hidden(c: char, rest: Expr)
                | Quoted(units: seq<Markup.Unit>, rest: Expr)
                | Bracketed(open: char, inner: Markup.Inside, close: char, rest: Expr)
                | Return(rest: Expr)

  function FirstWritten(e: Expr): string
    requires !e.Done?
  {
    match e
    case Atom(c, _) => [c]
    case Hidden(c, _) => ['\\', c]
    case Quoted(units, _) => ['"'] + (Markup.RenderUnits(units) + ['"'])
    case Bracketed(open, inner, close, _) => [open] + (Markup.Render(inner) + [close])
    case Return(_) => ['\r']
  }

  function Write(e: Expr): string {
    if e.Done? then "" else FirstWritten(e) + Write(e.rest)
  }

  /** What a backslash makes of a character outside brackets. */
  function Meaning(c: char): char {
    if c == 'n' then '\n' else if c == 't' then '\t' else if c == 'r' then '\r' else if c == 'f' then 12 as char else c
  }

  function UnitValue(u: Markup.Unit): string {
    if u.Escaped? then [Meaning(u.c)] else if u.c == '\r' then "" else [u.c]
  }

  /** The value of a string outside brackets: without its quotes. */
  function StringValue(us: seq<Markup.Unit>): string {
    if us == [] then "" else UnitValue(us[0]) + StringValue(us[1..])
  }

  function FirstValue(e: Expr): string
    requires !e.Done?
  {
    match e
    case Atom(c, _) => [c]
    case Hidden(c, _) => [Meaning(c)]
    case Quoted(units, _) => StringValue(units)
    case Bracketed(open, inner, close, _) => [open] + (Gathered(inner) + [close])
    case Return(_) => ""
  }

  function ValueOf(e: Expr): string {
    if e.Done? then "" else FirstValue(e) + ValueOf(e.rest)
  }

  predicate HasString(e: Expr) {
    !e.Done? && (e.Quoted? || HasString(e.rest))
  }

  /** Well formed: no character outside strings and brackets ends the expression or starts a comment. */
  predicate Proper(b: Brackets, e: Expr, stop: bool) {
    match e
    case Done => true
    case Atom(c, rest) =>
      && Markup.Ordinary(b, c) && !Whitespace(c) && !CommentAt(Write(e), 0) && (stop ==> c != '=')
      && Proper(b, rest, stop)
    case Hidden(c, rest) => c != '\0' && Proper(b, rest, stop)
    case Quoted(units, rest) => Markup.ProperUnits(units) && Proper(b, rest, stop)
    case Bracketed(open, inner, close, rest) =>
      IsLeft(b, open) && IsRight(b, close) && Markup.Proper(b, inner) && Proper(b, rest, stop)
    case Return(rest) => !rest.Done? && Proper(b, rest, stop)
  }

  /** What ends an expression: the end of the text, a blank, the end of a line, or the equals sign after a name. */
  predicate EndsAt(s: string, i: nat, stop: bool) {
    i <= |s| &&
    (i < |s| ==> s[i] in {' ', '\t', '\n'} || (s[i] == '\r' && At(s, i + 1) == '\n') || (stop && s[i] == '='))
  }

  /** The offset after the expression; an equals sign is left to be read. */
  function AfterEnd(s: string, i: nat): nat {
    if i >= |s| || s[i] == '=' then i else if s[i] == '\r' then i + 2 else i + 1
  }

  /** Outside strings and brackets. */
  predicate InExpression(r: Reader) {
    !r.quoted && r.depth == 0
  }

  lemma TurnAtAtom(b: Brackets, s: string, r: Reader, c: char, stop: bool)
    requires Sane(b) && InExpression(r) && r.i < |s| && s[r.i] == c && !CommentAt(s, r.i)
    requires Markup.Ordinary(b, c) && !Whitespace(c) && (stop ==> c != '=')
    ensures Turn(b, s, r, stop, false) == Go(r.(i := r.i + 1, text := r.text + [c]))
  {
  }

  lemma TurnAtHidden(b: Brackets, s: string, r: Reader, c: char, stop: bool, one: bool)
    requires Sane(b) && r.depth == 0 && c != '\0' && Holds(s, r.i, ['\\', c])
    ensures Turn(b, s, r, stop, one) == Go(r.(i := r.i + 2, text := r.text + [Meaning(c)]))
  {
    HoldsElement(s, r.i, ['\\', c], 0);
    HoldsElement(s, r.i, ['\\', c], 1);
  }

  lemma TurnInString(b: Brackets, s: string, r: Reader, c: char, stop: bool, one: bool)
    requires Sane(b) && r.quoted && r.depth == 0 && r.i < |s| && s[r.i] == c && Markup.ProperUnit(Markup.Bare(c))
    ensures Turn(b, s, r, stop, one)
         == Go(r.(i := r.i + 1, text := r.text + if c == '\r' then "" else [c]))
  {
    assert r.text + "" == r.text;
  }

  lemma {:induction false} ScanString(b: Brackets, s: string, r: Reader, us: seq<Markup.Unit>, stop: bool, one: bool)
    requires Sane(b) && r.quoted && r.depth == 0 && Markup.ProperUnits(us) && Holds(s, r.i, Markup.RenderUnits(us))
    ensures Scan(b, s, r, stop, one)
         == Scan(b, s, r.(i := r.i + |Markup.RenderUnits(us)|, text := r.text + StringValue(us)), stop, one)
    decreases |us|
  {
    hide Scan, Turn, Holds, Sane, Markup.ProperUnit, UnitValue, Markup.RenderUnit;
    if us == [] {
      assert r.text + "" == r.text;
    } else {
      HoldsParts(s, r.i, Markup.RenderUnit(us[0]), Markup.RenderUnits(us[1..]));
      TurnAtUnit(b, s, r, us[0], stop, one);
      ScanTurn(b, s, r, stop, one);
      var r' := r.(i := r.i + |Markup.RenderUnit(us[0])|, text := r.text + UnitValue(us[0]));
      ScanString(b, s, r', us[1..], stop, one);
      Regroup(r.text, UnitValue(us[0]), StringValue(us[1..]));
    }
  }

  lemma TurnAtUnit(b: Brackets, s: string, r: Reader, u: Markup.Unit, stop: bool, one: bool)
    requires Sane(b) && r.quoted && r.depth == 0 && Markup.ProperUnit(u) && Holds(s, r.i, Markup.RenderUnit(u))
    ensures Turn(b, s, r, stop, one)
         == Go(r.(i := r.i + |Markup.RenderUnit(u)|, text := r.text + UnitValue(u)))
  {
    hide Turn, Holds, Sane, Meaning;
    if u.Escaped? {
      TurnAtHidden(b, s, r, u.c, stop, one);
    } else {
      HoldsOne(s, r.i, u.c);
      TurnInString(b, s, r, u.c, stop, one);
    }
  }

  lemma ScanWholeString(b: Brackets, s: string, r: Reader, units: seq<Markup.Unit>, stop: bool, one: bool)
    requires Sane(b) && InExpression(r) && Markup.ProperUnits(units)
    requires Holds(s, r.i, ['"'] + (Markup.RenderUnits(units) + ['"']))
    ensures var end := r.i + |['"'] + (Markup.RenderUnits(units) + ['"'])|;
            Scan(b, s, r, stop, one)
            == Scan(b, s, r.(i := end, text := r.text + StringValue(units), quotes := true), stop, one)
  {
    hide Scan, Turn, Holds, Sane, Markup.RenderUnits, StringValue, Markup.ProperUnits;
    var body := Markup.RenderUnits(units);
    HoldsParts(s, r.i, ['"'], body + ['"']);
    HoldsOne(s, r.i, '"');
    HoldsParts(s, r.i + 1, body, ['"']);
    HoldsOne(s, r.i + 1 + |body|, '"');
    TurnAtQuote(b, s, r, stop, one);
    ScanTurn(b, s, r, stop, one);
    var r1 := r.(i := r.i + 1, quoted := true, quotes := true);
    ScanString(b, s, r1, units, stop, one);
    var r2 := r1.(i := r1.i + |body|, text := r1.text + StringValue(units));
    TurnAtQuote(b, s, r2, stop, one);
    ScanTurn(b, s, r2, stop, one);
  }

  lemma ScanFirstOf(b: Brackets, s: string, r: Reader, e: Expr, stop: bool)
    requires Sane(b) && InExpression(r) && !e.Done? && Proper(b, e, stop) && Holds(s, r.i, FirstWritten(e))
    requires e.Atom? ==> !CommentAt(s, r.i)
    requires e.Return? ==> At(s, r.i + 1) != '\n'
    ensures var r' := r.(i := r.i + |FirstWritten(e)|, text := r.text + FirstValue(e), quotes := r.quotes || e.Quoted?);
            Scan(b, s, r, stop, false) == Scan(b, s, r', stop, false)
  {
    hide Scan, Turn, Holds, Sane, CommentAt, Markup.Ordinary, Markup.Render, Markup.RenderUnits, Markup.Proper,
         Gathered, StringValue, Meaning, Whitespace;
    match e
    case Atom(c, _) =>
      HoldsOne(s, r.i, c);
      TurnAtAtom(b, s, r, c, stop);
      ScanTurn(b, s, r, stop, false);
    case Hidden(c, _) =>
      TurnAtHidden(b, s, r, c, stop, false);
      ScanTurn(b, s, r, stop, false);
    case Quoted(units, _) => ScanWholeString(b, s, r, units, stop, false);
    case Bracketed(open, inner, close, _) => ScanGroup(b, s, r, open, inner, close, stop, false);
    case Return(_) =>
      HoldsOne(s, r.i, '\r');
      TurnAtReturn(b, s, r, stop);
      ScanTurn(b, s, r, stop, false);
      assert r.text + "" == r.text;
  }

  lemma TurnAtReturn(b: Brackets, s: string, r: Reader, stop: bool)
    requires Sane(b) && InExpression(r) && r.i < |s| && s[r.i] == '\r' && At(s, r.i + 1) != '\n'
    ensures Turn(b, s, r, stop, false) == Go(r.(i := r.i + 1))
  {
  }

  lemma FirstIsNoNewline(b: Brackets, s: string, i: nat, e: Expr, stop: bool)
    requires Sane(b) && !e.Done? && Proper(b, e, stop) && Holds(s, i, Write(e))
    ensures At(s, i) != '\n'
  {
    NotEmptyFirst(e);
    HoldsElement(s, i, Write(e), 0);
  }

  /** No comment starts in `t` that `t` does not show, `i` being where it ends. */
  predicate Apart(s: string, i: nat, t: string) {
    At(s, i) != ';' || t == "" || t[|t| - 1] != ';'
  }

  lemma ApartRest(s: string, i: nat, first: string, rest: string)
    requires Apart(s, i, first + rest)
    ensures Apart(s, i, rest)
  {
  }

  lemma {:induction false} ScanExpression(b: Brackets, s: string, r: Reader, e: Expr, stop: bool)
    requires Sane(b) && InExpression(r) && Proper(b, e, stop) && Holds(s, r.i, Write(e))
    requires Apart(s, r.i + |Write(e)|, Write(e))
    ensures Scan(b, s, r, stop, false)
         == Scan(b, s, r.(i := r.i + |Write(e)|, text := r.text + ValueOf(e), quotes := r.quotes || HasString(e)),
                 stop, false)
    decreases e
  {
    hide Scan, Holds, Sane, CommentAt, Markup.Ordinary, Markup.Proper, FirstWritten, FirstValue;
    if e.Done? {
      assert r.text + "" == r.text;
    } else {
      HoldsParts(s, r.i, FirstWritten(e), Write(e.rest));
      if e.Atom? {
        NotEmptyFirst(e);
        Markup.CommentInside(s, r.i, Write(e), 0);
      }
      if e.Return? { AfterReturn(b, s, r.i, e, stop); }
      ApartRest(s, r.i + |Write(e)|, FirstWritten(e), Write(e.rest));
      ScanFirstOf(b, s, r, e, stop);
      var r' := r.(i := r.i + |FirstWritten(e)|, text := r.text + FirstValue(e), quotes := r.quotes || e.Quoted?);
      ScanExpression(b, s, r', e.rest, stop);
      Regroup(r.text, FirstValue(e), ValueOf(e.rest));
    }
  }

  lemma AfterReturn(b: Brackets, s: string, i: nat, e: Expr, stop: bool)
    requires Sane(b) && e.Return? && Proper(b, e, stop) && Holds(s, i + |FirstWritten(e)|, Write(e.rest))
    ensures At(s, i + 1) != '\n'
  {
    FirstIsNoNewline(b, s, i + 1, e.rest, stop);
  }

  lemma NotEmptyFirst(e: Expr)
    requires !e.Done?
    ensures FirstWritten(e) != "" && Write(e) != ""
    ensures FirstValue(e) != "" || e.Quoted? || e.Return?
  {
  }

  lemma TurnAtExpressionEnd(b: Brackets, s: string, r: Reader, stop: bool)
    requires Sane(b) && InExpression(r) && EndsAt(s, r.i, stop)
    ensures Turn(b, s, r, stop, false) == Stop(r.(i := AfterEnd(s, r.i)))
  {
  }

  /** There is an expression, and it does not start with whitespace. */
  predicate Starts(e: Expr) {
    !e.Done? && !e.Return?
  }

  lemma StartsSolid(b: Brackets, s: string, i: nat, e: Expr, stop: bool)
    requires Sane(b) && Starts(e) && Proper(b, e, stop) && Holds(s, i, Write(e))
    ensures i < |s| && !Whitespace(s[i])
  {
    NotEmptyFirst(e);
    HoldsElement(s, i, Write(e), 0);
  }

  /** Every well-formed expression is read as its value, wherever it stands; the offset ends up after it and
      what ends it. */
  lemma ReadExpression(b: Brackets, s: string, start: nat, e: Expr, stop: bool)
    requires Sane(b) && Starts(e) && Proper(b, e, stop) && Holds(s, start, Write(e))
    requires EndsAt(s, start + |Write(e)|, stop)
    ensures ReadSexp(b, s, start, stop, false) == (Some(ValueOf(e)), AfterEnd(s, start + |Write(e)|))
  {
    hide Scan, Turn, Holds, Sane, Proper, FirstValue, FirstWritten, SkipBlanks;
    StartsSolid(b, s, start, e, stop);
    NoBlanksAt(s, start);
    NotEmptyFirst(e);
    var r := Start(start);
    ScanExpression(b, s, r, e, stop);
    assert "" + ValueOf(e) == ValueOf(e);
    var r' := r.(i := start + |Write(e)|, text := ValueOf(e), quotes := HasString(e));
    TurnAtExpressionEnd(b, s, r', stop);
    ScanTurn(b, s, r', stop, false);
  }

  /** A bracketed expression is read as it stands if and only if it holds no comments and no carriage returns. */
  lemma ReadBracketed(b: Brackets, s: string, start: nat, open: char, inner: Markup.Inside, close: char, stop: bool)
    requires Sane(b) && IsLeft(b, open) && IsRight(b, close) && Markup.Proper(b, inner)
    requires var e := [open] + (Markup.Render(inner) + [close]);
             Holds(s, start, e) && EndsAt(s, start + |e|, stop)
    ensures var e := [open] + (Markup.Render(inner) + [close]);
            && ReadSexp(b, s, start, stop, false).1 == AfterEnd(s, start + |e|)
            && (ReadSexp(b, s, start, stop, false).0 == Some(e) <==> Tidy(inner))
  {
    hide ReadSexp, Holds, Write, ValueOf, Proper, Tidy, Markup.Render, Markup.Proper;
    BracketedIs(b, open, inner, close);
    ReadExpression(b, s, start, Bracketed(open, inner, close, Done), stop);
  }

  /** A bracketed expression on its own. */
  lemma BracketedIs(b: Brackets, open: char, inner: Markup.Inside, close: char)
    requires IsLeft(b, open) && IsRight(b, close) && Markup.Proper(b, inner)
    ensures var e, text := Bracketed(open, inner, close, Done), [open] + (Markup.Render(inner) + [close]);
            && Write(e) == text && (ValueOf(e) == text <==> Tidy(inner))
            && forall stop :: Proper(b, e, stop)
  {
    hide Markup.Render, Gathered, Tidy, Markup.Proper;
    var e := Bracketed(open, inner, close, Done);
    assert Write(Done) == "" && ValueOf(Done) == "";
    assert FirstWritten(e) + "" == FirstWritten(e) && FirstValue(e) + "" == FirstValue(e);
    GatheredIs(inner);
    SameParts(Gathered(inner), Markup.Render(inner), [close], [close]);
    SameTail([open], Gathered(inner) + [close], Markup.Render(inner) + [close]);
  }

  /** When a single list is wanted, reading stops right at its closing bracket, whatever follows. */
  lemma ReadOneList(b: Brackets, s: string, start: nat, open: char, inner: Markup.Inside, close: char, stop: bool)
    requires Sane(b) && IsLeft(b, open) && IsRight(b, close) && Markup.Proper(b, inner)
    requires Holds(s, start, [open] + (Markup.Render(inner) + [close]))
    ensures ReadSexp(b, s, start, stop, true)
         == (Some([open] + (Gathered(inner) + [close])), start + |Markup.Render(inner)| + 2)
  {
    hide Scan, Holds, Sane, Markup.Render, Gathered, Markup.Proper, SkipBlanks;
    HoldsParts(s, start, [open], Markup.Render(inner) + [close]);
    HoldsOne(s, start, open);
    LeftIsSolid(b, open);
    NoBlanksAt(s, start);
    ScanGroup(b, s, Start(start), open, inner, close, stop, true);
    assert "" + ([open] + (Gathered(inner) + [close])) == [open] + (Gathered(inner) + [close]);
  }

  lemma LeftIsSolid(b: Brackets, c: char)
    requires Sane(b) && IsLeft(b, c)
    ensures !Whitespace(c)
  {
  }

  /** A comment line after an expression is passed over; its newline ends the expression. */
  lemma ReadCommented(b: Brackets, s: string, start: nat, e: Expr, line: string, stop: bool)
    requires Sane(b) && Starts(e) && Proper(b, e, stop) && Holds(s, start, Write(e))
    requires Write(e) != "" ==> Write(e)[|Write(e)| - 1] != ';'
    requires '\n' !in line && Holds(s, start + |Write(e)|, ";;;" + (line + ['\n']))
    ensures ReadSexp(b, s, start, stop, false) == (Some(ValueOf(e)), start + |Write(e)| + |line| + 4)
  {
    hide Scan, Turn, Holds, Sane, Proper, FirstValue, FirstWritten, SkipBlanks, LineEnd;
    StartsSolid(b, s, start, e, stop);
    NoBlanksAt(s, start);
    NotEmptyFirst(e);
    var r, mid := Start(start), start + |Write(e)|;
    ScanExpression(b, s, r, e, stop);
    assert "" + ValueOf(e) == ValueOf(e);
    var r' := r.(i := mid, text := ValueOf(e), quotes := HasString(e));
    Markup.CommentParts(s, mid, line);
    LineEndIs(s, mid + 3, mid + 3 + |line|);
    LineEndHere(s, mid + 3 + |line|);
    TurnAtComment(b, s, r', stop, false);
    ScanTurn(b, s, r', stop, false);
    var r'' := r'.(i := mid + 3 + |line|);
    TurnAtEnd(b, s, r'', stop, false);
    ScanTurn(b, s, r'', stop, false);
  }

  /** A closing bracket without an opening one is kept, and what ends an expression still ends it after that. */
  lemma ReadStrayClose(b: Brackets, s: string, start: nat, e: Expr, close: char, stop: bool)
    requires Sane(b) && Starts(e) && Proper(b, e, stop) && Holds(s, start, Write(e)) && IsRight(b, close)
    requires var end := start + |Write(e)|; end < |s| && s[end] == close && EndsAt(s, end + 1, stop)
    ensures ReadSexp(b, s, start, stop, false)
         == (Some(ValueOf(e) + [close]), AfterEnd(s, start + |Write(e)| + 1))
  {
    hide Scan, Turn, Holds, Sane, Proper, FirstValue, FirstWritten, SkipBlanks;
    StartsSolid(b, s, start, e, stop);
    NoBlanksAt(s, start);
    RightIsPlain(b, close);
    var end := start + |Write(e)|;
    ScanExpression(b, s, Start(start), e, stop);
    assert "" + ValueOf(e) == ValueOf(e);
    var r := Start(start).(i := end, text := ValueOf(e), quotes := HasString(e));
    TurnAtStray(b, s, r, stop);
    ScanTurn(b, s, r, stop, false);
    TurnAfterStray(b, s, r.(i := end + 1, text := ValueOf(e) + [close], depth := -1), stop);
    ScanTurn(b, s, r.(i := end + 1, text := ValueOf(e) + [close], depth := -1), stop, false);
  }

  lemma TurnAtStray(b: Brackets, s: string, r: Reader, stop: bool)
    requires Sane(b) && InExpression(r) && r.i < |s| && IsRight(b, s[r.i])
    ensures Turn(b, s, r, stop, false) == Go(r.(i := r.i + 1, text := r.text + [s[r.i]], depth := -1))
  {
  }

  lemma TurnAfterStray(b: Brackets, s: string, r: Reader, stop: bool)
    requires Sane(b) && !r.quoted && r.depth < 0 && EndsAt(s, r.i, stop)
    ensures Turn(b, s, r, stop, false) == Stop(r.(i := AfterEnd(s, r.i)))
  {
  }
}

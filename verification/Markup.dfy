/** Properly nested bracket text: the expressions of the language, and the tags of a page. */
module Markup {
  import opened CText
  import opened Slices

  /** A character of a string, or one with a backslash before it. */
  datatype Unit = Bare(c: char) | Escaped(c: char)

  /** What stands between two brackets: text, characters behind a backslash, strings, comment lines, and
      nested brackets with what stands between them. */
  datatype Inside = End
                  | Text(text: string, rest: Inside)
                  | Escape(c: char, rest: Inside)
                  | String(units: seq<Unit>, rest: Inside)
                  | Comment(line: string, rest: Inside)
                  | Group(open: char, inner: Inside, close: char, rest: Inside)

  function RenderUnit(u: Unit): string {
    match u
    case Bare(c) => [c]
    case Escaped(c) => ['\\', c]
  }

  function RenderUnits(us: seq<Unit>): string {
    if us == [] then "" else RenderUnit(us[0]) + RenderUnits(us[1..])
  }

  function Render(x: Inside): string {
    match x
    case End => ""
    case Text(text, rest) => text + Render(rest)
    case Escape(c, rest) => ['\\', c] + Render(rest)
    case String(units, rest) => ['"'] + (RenderUnits(units) + (['"'] + Render(rest)))
    case Comment(line, rest) => ";;;" + (line + (['\n'] + Render(rest)))
    case Group(open, inner, close, rest) => [open] + (Render(inner) + ([close] + Render(rest)))
  }

  /** A character that stands for itself between brackets, if it does not start a comment. */
  predicate Ordinary(b: Brackets, c: char) {
    !IsLeft(b, c) && !IsRight(b, c) && c != '"' && c != '\\' && c != '\0'
  }

  predicate ProperUnit(u: Unit) {
    u.c != '\0' && (u.Bare? ==> u.c != '"' && u.c != '\\')
  }

  predicate ProperUnits(us: seq<Unit>) {
    forall k :: 0 <= k < |us| ==> ProperUnit(us[k])
  }

  predicate Proper(b: Brackets, x: Inside) {
    match x
    case End => true
    case Text(text, rest) =>
      && Proper(b, rest)
      && forall k :: 0 <= k < |text| ==> Ordinary(b, text[k]) && !CommentAt(text + Render(rest), k)
    case Escape(c, rest) => c != '\0' && Proper(b, rest)
    case String(units, rest) => ProperUnits(units) && Proper(b, rest)
    case Comment(line, rest) => '\n' !in line && '\0' !in line && Proper(b, rest)
    case Group(open, inner, close, rest) => IsLeft(b, open) && IsRight(b, close) && Proper(b, inner) && Proper(b, rest)
  }

  // ---------------------------------------------------------------- piece by piece

  /** The first piece. */
  function First(x: Inside): string
    requires !x.End?
  {
    match x
    case Text(text, _) => text
    case Escape(c, _) => ['\\', c]
    case String(units, _) => ['"'] + (RenderUnits(units) + ['"'])
    case Comment(line, _) => ";;;" + (line + ['\n'])
    case Group(open, inner, close, _) => [open] + (Render(inner) + [close])
  }

  lemma FirstThenRest(x: Inside)
    requires !x.End?
    ensures Render(x) == First(x) + Render(x.rest)
  {
    hide RenderUnits;
  }

  lemma RestIsProper(b: Brackets, x: Inside)
    requires !x.End? && Proper(b, x)
    ensures Proper(b, x.rest)
  {
  }

  lemma CommentParts(s: string, i: nat, line: string)
    requires Holds(s, i, ";;;" + (line + ['\n'])) && '\n' !in line
    ensures var end := i + 3 + |line|;
            && end < |s| && s[end] == '\n' && CommentAt(s, i) && forall k :: i + 3 <= k < end ==> s[k] != '\n'
  {
    hide Holds;
    var end := i + 3 + |line|;
    HoldsParts(s, i, ";;;", line + ['\n']);
    HoldsParts(s, i + 3, line, ['\n']);
    HoldsOne(s, end, '\n');
    HoldsElement(s, i, ";;;", 0);
    HoldsElement(s, i, ";;;", 1);
    HoldsElement(s, i, ";;;", 2);
    forall k | i + 3 <= k < end ensures s[k] != '\n' {
      HoldsElement(s, i + 3, line, k - i - 3);
    }
  }

  /** Whether a comment starts in a text that something other than a semicolon follows can be told from
      the text alone. */
  lemma CommentInside(s: string, i: nat, t: string, k: nat)
    requires Holds(s, i, t) && k < |t| && (At(s, i + |t|) != ';' || t[|t| - 1] != ';')
    ensures CommentAt(s, i + k) == CommentAt(t, k)
  {
    assert forall j :: 0 <= j < |t| ==> s[i + j] == t[j];
  }
}

/** Filling in the body of a user-defined function or macro (libmhtml/parser.c). */
module Macros {
  import opened CText
  import opened Buffers
  import opened Slices
  import opened Options
  import Arguments

  // ---------------------------------------------------------------- the pure expansion

  /** What a body template consists of. Which piece stands where depends on the template alone. */
  datatype Piece = Literal(c: char)
                 | Positional(n: nat)
                 | BodyText
                 | QuotedBody
                 | EvaluatedBody
                 | Attributes

  function Digit(c: char): nat
    requires '0' <= c <= '9'
  {
    c as int - '0' as int
  }

  /** What stands at the start of `t`, and how many characters it takes. */
  function Directive(t: string): (r: (seq<Piece>, nat))
    requires t != ""
    ensures 0 < r.1 <= |t|
    ensures |r.0| == 1 || (r.1 == 2 && r.0 == [Literal(t[0]), Literal(t[1])])
  {
    if t[0] != '%' || |t| == 1 then ([Literal(t[0])], 1)
    else if '0' <= t[1] <= '9' then ([Positional(Digit(t[1]))], 2)
    else if t[1] == '\\' then ([Literal('%')], 2)
    else if WordAt(t, 1, "body") then ([BodyText], 5)
    else if WordAt(t, 1, "qbody") then ([QuotedBody], 6)
    else if WordAt(t, 1, "xbody") then ([EvaluatedBody], 6)
    else if WordAt(t, 1, "attributes") then ([Attributes], 11)
    else ([Literal('%'), Literal(t[1])], 2)
  }

  /** The pieces of a template, read once from left to right. */
  function Parse(t: string): seq<Piece>
    decreases |t|
  {
    if t == "" then [] else Directive(t).0 + Parse(t[Directive(t).1..])
  }

  /** What one call supplies. The body may be missing altogether; `evaluate(k)` is what evaluating
      the body for the `k`-th time gives, if anything. */
  datatype Call = Call(positional: seq<string>, body: Option<string>, isMacro: bool, attributes: string,
                       evaluate: nat -> Option<string>)

  predicate Blank(s: string) {
    SkipBlanks(s, 0) >= |s|
  }

  function Trim(s: string): string {
    s[SkipBlanks(s, 0)..]
  }

  /** The body as it is inserted: leading whitespace goes unless the definition is a macro. */
  function BodyOf(call: Call): string {
    if call.body.None? || Blank(call.body.value) then ""
    else if call.isMacro then call.body.value
    else Trim(call.body.value)
  }

  function FillPiece(piece: Piece, call: Call, evaluated: nat): string {
    match piece
    case Literal(c) => [c]
    case Positional(n) => if n < |call.positional| && !Blank(call.positional[n]) then call.positional[n] else ""
    case BodyText => BodyOf(call)
    case QuotedBody => if BodyOf(call) == "" then "" else Arguments.Quote(BodyOf(call))
    case EvaluatedBody =>
      if call.body.Some? && call.evaluate(evaluated).Some? then call.evaluate(evaluated).value else ""
    case Attributes => if Blank(call.attributes) then "" else Trim(call.attributes)
  }

  /** The pieces filled in one after the other, `evaluated` evaluations having been made. */
  function Fill(pieces: seq<Piece>, call: Call, evaluated: nat): string {
    if pieces == [] then ""
    else
      FillPiece(pieces[0], call, evaluated)
      + Fill(pieces[1..], call, if pieces[0] == EvaluatedBody then evaluated + 1 else evaluated)
  }

  // ---------------------------------------------------------------- the loop that edits in place

  /** What the template from `i` on will become. */
  function Rest(text: string, i: nat, call: Call, evaluated: nat): string
    requires i <= |text|
  {
    Fill(Parse(text[i..]), call, evaluated)
  }

  lemma FillLiteral(c: char, qs: seq<Piece>, call: Call, evaluated: nat)
    ensures Fill([Literal(c)] + qs, call, evaluated) == [c] + Fill(qs, call, evaluated)
  {
    assert ([Literal(c)] + qs)[1..] == qs;
  }

  /** One piece is filled in and the rest of the template goes on after it. */
  lemma RestStep(text: string, i: nat, call: Call, evaluated: nat)
    requires i < |text|
    ensures var (ps, n) := Directive(text[i..]);
            Rest(text, i, call, evaluated) ==
            if |ps| == 1 then
              FillPiece(ps[0], call, evaluated)
              + Rest(text, i + n, call, if ps[0] == EvaluatedBody then evaluated + 1 else evaluated)
            else text[i..i + 2] + Rest(text, i + 2, call, evaluated)
  {
    hide Directive, FillPiece;
    var t := text[i..];
    var (ps, n) := Directive(t);
    var tail := Parse(t[n..]);
    assert t[n..] == text[i + n..];
    if |ps| == 1 {
      assert (ps + tail)[0] == ps[0] && (ps + tail)[1..] == tail;
    } else {
      assert ps + tail == [Literal(t[0])] + ([Literal(t[1])] + tail);
      FillLiteral(t[0], [Literal(t[1])] + tail, call, evaluated);
      FillLiteral(t[1], tail, call, evaluated);
      assert [t[0]] + ([t[1]] + Fill(tail, call, evaluated)) == text[i..i + 2] + Fill(tail, call, evaluated);
    }
  }

  /** Replacing what stands at `i` by its filling leaves the rest of the template to be read. */
  lemma RestAfterEdit(text: string, i: nat, n: nat, filling: string, call: Call, evaluated: nat)
    requires i + n <= |text|
    ensures var text' := text[..i] + filling + text[i + n..];
            Rest(text', i + |filling|, call, evaluated) == Rest(text, i + n, call, evaluated)
            && text'[..i + |filling|] == text[..i] + filling
  {
    var text' := text[..i] + filling + text[i + n..];
    assert text'[i + |filling|..] == text[i + n..];
  }

  /** A directive is replaced by its filling: `bprintf_delete_range`, then `bprintf_insert`. */
  method Replace(subber: TextBuffer, start: nat, n: nat, filling: string) returns (i: nat)
    requires start + n <= |subber.text|
    modifies subber
    ensures i == start + |filling|
    ensures subber.text == old(subber.text[..start] + filling + subber.text[start + n..])
  {
    subber.DeleteRange(start, start + n);
    i := start;
    if filling != "" {
      subber.InsertText(i, filling);
      i := i + |filling|;
    }
  }

  lemma PlainStep(text: string, i: nat, call: Call, evaluated: nat)
    requires i < |text| && text[i] != '%'
    ensures text[..i] + Rest(text, i, call, evaluated) == text[..i + 1] + Rest(text, i + 1, call, evaluated)
  {
    RestStep(text, i, call, evaluated);
    assert text[i..][0] == text[i];
    assert text[..i + 1] == text[..i] + [text[i]];
  }

  lemma RestStarts(text: string, call: Call)
    ensures text[..0] + Rest(text, 0, call, 0) == Fill(Parse(text), call, 0)
  {
    assert text[0..] == text;
  }

  lemma RestEnds(text: string, call: Call, evaluated: nat)
    ensures Rest(text, |text|, call, evaluated) == "" && text[..|text|] == text
  {
  }

  /** What the character at `i`, just after a percent sign, asks for: a filling for the `n`
      characters from the percent sign on, or nothing (`n == 0`). */
  method Lookup(text: string, i: nat, call: Call, evaluated: nat)
    returns (filling: string, n: nat, evaluated': nat)
    requires 0 < i < |text| && text[i - 1] == '%' && text[i] != '\\'
    ensures var (ps, len) := Directive(text[i - 1..]);
            if |ps| == 1 then
              n == len && n > 1 && filling == FillPiece(ps[0], call, evaluated)
              && evaluated' == if ps[0] == EvaluatedBody then evaluated + 1 else evaluated
            else n == 0 && evaluated' == evaluated
  {
    WordAtSuffix(text, i - 1);
    assert text[i - 1..][0] == '%' && text[i - 1..][1] == text[i];
    filling, n, evaluated' := "", 0, evaluated;
    if '0' <= text[i] <= '9' {
      var which := Digit(text[i]);
      if which < |call.positional| && !Blank(call.positional[which]) {
        filling := call.positional[which];
      }
      n := 2;
    } else if WordAt(text, i, "body") {
      filling := BodyOf(call);
      n := 5;
    } else if WordAt(text, i, "qbody") {
      if BodyOf(call) != "" {
        var quoted, k := Arguments.QuoteForSetvar(BodyOf(call));
        filling := quoted[..k];
      }
      n := 6;
    } else if WordAt(text, i, "xbody") {
      if call.body.Some? && call.evaluate(evaluated).Some? {
        filling := call.evaluate(evaluated).value;
      }
      evaluated' := evaluated + 1;
      n := 6;
    } else if WordAt(text, i, "attributes") {
      if !Blank(call.attributes) {
        filling := Trim(call.attributes);
      }
      n := 11;
    }
  }

  /** The directive after the percent sign at `start` is filled in; the index ends up after the
      filling, so that nothing inserted is read again. */
  method SubstituteAt(subber: TextBuffer, start: nat, call: Call, evaluated: nat)
    returns (i: nat, evaluated': nat)
    requires start < |subber.text| && subber.text[start] == '%'
    modifies subber
    ensures i <= |subber.text| && |subber.text| - i < old(|subber.text|) - start
    ensures subber.text[..i] + Rest(subber.text, i, call, evaluated')
         == old(subber.text[..start] + Rest(subber.text, start, call, evaluated))
  {
    hide Rest, Directive, FillPiece;
    i := start + 1;
    evaluated' := evaluated;
    if i < |subber.text| && subber.text[i] == '\\' {
      UnquotePercent(subber, start, call, evaluated);
    } else if i < |subber.text| {
      i, evaluated' := FillIn(subber, start, call, evaluated);
    } else {
      ghost var text := subber.text;
      RestStep(text, start, call, evaluated);
      LastPercent(text, start);
      assert text[..i] == text[..start] + [text[start]];
      Regroup(text[..start], [text[start]], Rest(text, i, call, evaluated));
    }
  }

  /** `%\` loses its backslash. */
  method UnquotePercent(subber: TextBuffer, start: nat, call: Call, evaluated: nat)
    requires start + 1 < |subber.text| && subber.text[start] == '%' && subber.text[start + 1] == '\\'
    modifies subber
    ensures |subber.text| == old(|subber.text|) - 1
    ensures subber.text[..start + 1] + Rest(subber.text, start + 1, call, evaluated)
         == old(subber.text[..start] + Rest(subber.text, start, call, evaluated))
  {
    hide Rest, Directive, FillPiece;
    ghost var text := subber.text;
    RestStep(text, start, call, evaluated);
    QuotedPercent(text, start);
    subber.DeleteRange(start + 1, start + 2);
    assert subber.text == text[..start] + "%" + text[start + 2..];
    RestAfterEdit(text, start, 2, "%", call, evaluated);
    Regroup(text[..start], "%", Rest(text, start + 2, call, evaluated));
  }

  /** A directive is filled in, if there is one; otherwise the two characters are passed over. */
  method FillIn(subber: TextBuffer, start: nat, call: Call, evaluated: nat) returns (i: nat, evaluated': nat)
    requires start + 1 < |subber.text| && subber.text[start] == '%' && subber.text[start + 1] != '\\'
    modifies subber
    ensures i <= |subber.text| && |subber.text| - i < old(|subber.text|) - start
    ensures subber.text[..i] + Rest(subber.text, i, call, evaluated')
         == old(subber.text[..start] + Rest(subber.text, start, call, evaluated))
  {
    hide Rest, Directive, FillPiece;
    ghost var text := subber.text;
    RestStep(text, start, call, evaluated);
    var filling, n;
    filling, n, evaluated' := Lookup(subber.text, start + 1, call, evaluated);
    assert text[start + 1 - 1..] == text[start..];
    if n == 0 {
      i := start + 2;
      assert text[..i] == text[..start] + text[start..start + 2];
      Regroup(text[..start], text[start..start + 2], Rest(text, i, call, evaluated));
    } else {
      i := Replace(subber, start, n, filling);
      RestAfterEdit(text, start, n, filling, call, evaluated');
      Regroup(text[..start], filling, Rest(text, start + n, call, evaluated'));
    }
  }

  lemma LastPercent(text: string, start: nat)
    requires start + 1 == |text|
    ensures Directive(text[start..]) == ([Literal(text[start])], 1)
    ensures forall call: Call, n: nat :: FillPiece(Literal(text[start]), call, n) == [text[start]]
  {
  }

  lemma QuotedPercent(text: string, start: nat)
    requires start + 1 < |text| && text[start] == '%' && text[start + 1] == '\\'
    ensures Directive(text[start..]) == ([Literal('%')], 2)
    ensures forall call: Call, n: nat :: FillPiece(Literal('%'), call, n) == "%"
  {
    assert text[start..][0] == '%' && text[start..][1] == '\\';
  }

  /** Matching a word in the rest of the template is matching it in the buffer. */
  lemma WordAtSuffix(text: string, start: nat)
    requires start < |text|
    ensures forall w: string :: WordAt(text[start..], 1, w) == WordAt(text, start + 1, w)
  {
    var t := text[start..];
    forall w: string ensures WordAt(t, 1, w) == WordAt(text, start + 1, w) {
      if WordAt(text, start + 1, w) {
        forall k | 0 <= k < |w| ensures Lower(t[1 + k]) == w[k] {
          assert Lower(text[start + 1 + k]) == w[k];
        }
      }
      if WordAt(t, 1, w) {
        forall k | 0 <= k < |w| ensures Lower(text[start + 1 + k]) == w[k] {
          assert Lower(t[1 + k]) == w[k];
        }
      }
    }
  }

  /** The substitution loop of `mhtml_execute_function`: the text of `subber` grows and shrinks
      under the index, and ends up as the one-pass expansion of the template. */
  method SubstituteBody(subber: TextBuffer, call: Call)
    modifies subber
    ensures subber.text == Fill(Parse(old(subber.text)), call, 0)
  {
    hide Rest, Fill, Parse;
    var i, evaluated := 0, 0;
    ghost var want := Fill(Parse(subber.text), call, 0);
    RestStarts(subber.text, call);
    while i < |subber.text|
      invariant 0 <= i && 0 <= evaluated
      invariant if i <= |subber.text| then want == subber.text[..i] + Rest(subber.text, i, call, evaluated)
                else want == subber.text
      decreases |subber.text| - i
    {
      var size := |subber.text| - i;
      while i < |subber.text| && subber.text[i] != '%'
        invariant 0 <= i <= |subber.text| && |subber.text| - i <= size
        invariant want == subber.text[..i] + Rest(subber.text, i, call, evaluated)
      {
        PlainStep(subber.text, i, call, evaluated);
        i := i + 1;
      }
      if i == |subber.text| {
        RestEnds(subber.text, call, evaluated);
        i := i + 1;
      } else {
        i, evaluated := SubstituteAt(subber, i, call, evaluated);
      }
    }
    if i == |subber.text| { RestEnds(subber.text, call, evaluated); }
  }

  // ---------------------------------------------------------------- writing percent signs

  /** The template that stands for `s` itself: every percent sign gets a backslash. */
  function Protect(s: string): string {
    if s == "" then ""
    else (if s[0] == '%' then "%\\" else [s[0]]) + Protect(s[1..])
  }

  /** `%\` is how a template says a percent sign: a protected text expands to itself in every call. */
  lemma {:induction false} ProtectedExpandsToItself(s: string, call: Call, evaluated: nat)
    ensures Fill(Parse(Protect(s)), call, evaluated) == s
  {
    if s != "" {
      var c, t := s[0], Protect(s);
      assert t[(if c == '%' then 2 else 1)..] == Protect(s[1..]);
      assert Directive(t) == ([Literal(c)], if c == '%' then 2 else 1);
      ProtectedExpandsToItself(s[1..], call, evaluated);
      FillLiteral(c, Parse(Protect(s[1..])), call, evaluated);
      assert s == [c] + s[1..];
    }
  }
}

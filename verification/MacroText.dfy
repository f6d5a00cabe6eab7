/** What the directives in the body of a macro are replaced by (libmhtml/parser.c). */
module MacroText {
  import opened CText
  import opened Slices
  import opened Options
  import opened Macros
  import Arguments

  /** What a template becomes in a call, `k` evaluations having been made. */
  function Expand(template: string, call: Call, k: nat): string {
    Fill(Parse(template), call, k)
  }

  lemma FillFirst(p: Piece, ps: seq<Piece>, call: Call, k: nat)
    ensures Fill([p] + ps, call, k)
         == FillPiece(p, call, k) + Fill(ps, call, if p == EvaluatedBody then k + 1 else k)
  {
    hide FillPiece;
    assert ([p] + ps)[1..] == ps;
  }

  lemma ProtectedHead(c: char, t: string)
    ensures var w := (if c == '%' then "%\\" else [c]) + t;
            w != "" && Directive(w) == ([Literal(c)], |w| - |t|) && w[|w| - |t|..] == t
  {
  }

  lemma ExpandProtected(c: char, t: string, call: Call, k: nat)
    ensures Expand((if c == '%' then "%\\" else [c]) + t, call, k) == [c] + Expand(t, call, k)
  {
    hide Directive, Fill;
    ProtectedHead(c, t);
    assert Parse((if c == '%' then "%\\" else [c]) + t) == [Literal(c)] + Parse(t);
    FillLiteral(c, Parse(t), call, k);
  }

  lemma ProtectSplits(s: string, rest: string)
    requires s != ""
    ensures Protect(s) + rest == (if s[0] == '%' then "%\\" else [s[0]]) + (Protect(s[1..]) + rest)
  {
  }

  /** Text whose percent signs are protected stands for itself, whatever the template goes on with. */
  lemma {:induction false} ExpandAfter(pre: string, rest: string, call: Call, k: nat)
    ensures Expand(Protect(pre) + rest, call, k) == pre + Expand(rest, call, k)
    decreases |pre|
  {
    hide Expand;
    if pre == "" {
      assert Protect(pre) + rest == rest && pre + Expand(rest, call, k) == Expand(rest, call, k);
    } else {
      hide Protect;
      ProtectSplits(pre, rest);
      ExpandProtected(pre[0], Protect(pre[1..]) + rest, call, k);
      ExpandAfter(pre[1..], rest, call, k);
      Regroup([pre[0]], pre[1..], Expand(rest, call, k));
      assert pre == [pre[0]] + pre[1..];
    }
  }

  /** One directive between two texts. */
  function Between(pre: string, directive: string, post: string): string {
    Protect(pre) + (directive + Protect(post))
  }

  lemma ExpandDirective(directive: string, rest: string, p: Piece, call: Call, k: nat)
    requires directive + rest != "" && Directive(directive + rest) == ([p], |directive|)
    ensures Expand(directive + rest, call, k)
         == FillPiece(p, call, k) + Expand(rest, call, if p == EvaluatedBody then k + 1 else k)
  {
    hide Directive, FillPiece;
    var t := directive + rest;
    assert t[|directive|..] == rest;
    FillFirst(p, Parse(rest), call, k);
  }

  lemma ExpandBetween(pre: string, directive: string, post: string, p: Piece, call: Call, k: nat)
    requires var t := directive + Protect(post); t != "" && Directive(t) == ([p], |directive|)
    ensures Expand(Between(pre, directive, post), call, k) == pre + FillPiece(p, call, k) + post
  {
    hide Directive, FillPiece, Expand;
    ExpandAfter(pre, directive + Protect(post), call, k);
    ExpandDirective(directive, Protect(post), p, call, k);
    ProtectedExpands(post, call, if p == EvaluatedBody then k + 1 else k);
    Regroup(pre, FillPiece(p, call, k), post);
  }

  lemma ProtectedExpands(s: string, call: Call, k: nat)
    ensures Expand(Protect(s), call, k) == s
  {
    ProtectedExpandsToItself(s, call, k);
  }

  // ---------------------------------------------------------------- which directive it is

  /** The directives that are words, and the pieces they stand for. */
  predicate IsWord(word: string, p: Piece) {
    || (word == "%body" && p == BodyText)
    || (word == "%qbody" && p == QuotedBody)
    || (word == "%xbody" && p == EvaluatedBody)
    || (word == "%attributes" && p == Attributes)
  }

  /** After the percent sign stands the word, and its first letter tells it from the other words. */
  lemma WordStarts(directive: string, word: string, p: Piece, rest: string)
    requires IsWord(word, p) && SameText(directive, word)
    ensures var t := directive + rest;
            && |t| > |word| - 1 && t[0] == '%' && Lower(t[1]) == word[1] && WordAt(t, 1, word[1..])
  {
    var t, w := directive + rest, word[1..];
    assert t[0] == directive[0] && SameLetter(directive[0], word[0]);
    assert t[1] == directive[1] && SameLetter(directive[1], word[1]);
    assert t[1..1 + |w|] == directive[1..];
    WordAtIs(t, 1, w);
  }

  lemma OtherWords(t: string)
    requires |t| > 1
    ensures Lower(t[1]) != 'b' ==> !WordAt(t, 1, "body")
    ensures Lower(t[1]) != 'q' ==> !WordAt(t, 1, "qbody")
    ensures Lower(t[1]) != 'x' ==> !WordAt(t, 1, "xbody")
  {
    if Lower(t[1]) != 'b' { NotWordAt(t, 1, "body", 0); }
    if Lower(t[1]) != 'q' { NotWordAt(t, 1, "qbody", 0); }
    if Lower(t[1]) != 'x' { NotWordAt(t, 1, "xbody", 0); }
  }

  /** A directive is recognised in any case. */
  lemma WordIsDirective(directive: string, word: string, p: Piece, rest: string)
    requires IsWord(word, p) && SameText(directive, word)
    ensures directive + rest != "" && Directive(directive + rest) == ([p], |directive|)
  {
    hide WordAt, SameText;
    SameLengths(directive, word);
    WordStarts(directive, word, p, rest);
    OtherWords(directive + rest);
  }

  lemma SameLengths(s: string, t: string)
    requires SameText(s, t)
    ensures |s| == |t|
  {
  }

  lemma DigitIsDirective(n: nat, rest: string)
    requires n < 10
    ensures var d := ['%', "0123456789"[n]]; d + rest != "" && Directive(d + rest) == ([Positional(n)], 2)
  {
  }

  // ---------------------------------------------------------------- what it is replaced by

  /** Whitespace, then something else. */
  predicate Leads(w: string, s: string) {
    AllWhitespace(w) && s != "" && !Whitespace(s[0])
  }

  lemma Led(w: string, s: string)
    requires Leads(w, s)
    ensures !Blank(w + s) && Trim(w + s) == s
  {
    var t := w + s;
    assert t[0..|w|] == w && t[|w|..] == s;
    BlanksSkipped(t, 0, w);
  }

  lemma AllBlank(w: string)
    requires AllWhitespace(w)
    ensures Blank(w)
  {
    assert w[0..|w|] == w;
    BlanksSkipped(w, 0, w);
  }

  /** `%body` is replaced by the body: whole in a macro, without exactly its leading whitespace otherwise. */
  lemma FillsBody(pre: string, directive: string, post: string, w: string, s: string, call: Call, k: nat)
    requires SameText(directive, "%body") && Leads(w, s) && call.body == Some(w + s)
    ensures Expand(Between(pre, directive, post), call, k) == pre + (if call.isMacro then w + s else s) + post
  {
    hide Directive, SameText, Blank, Trim;
    WordIsDirective(directive, "%body", BodyText, Protect(post));
    ExpandBetween(pre, directive, post, BodyText, call, k);
    Led(w, s);
  }

  /** `%qbody` is replaced by what reads back as that body, but for carriage returns. */
  lemma FillsQuotedBody(pre: string, directive: string, post: string, w: string, s: string, call: Call, k: nat)
    returns (quoted: string)
    requires SameText(directive, "%qbody") && Leads(w, s) && call.body == Some(w + s) && Arguments.CString(w + s)
    ensures Expand(Between(pre, directive, post), call, k) == pre + quoted + post
    ensures forall b, before, after, stop, one ::
              Sane(b) && (after == "" || after[0] in {' ', '\t', '\n'}) ==>
                Arguments.ReadSexp(b, before + quoted + after, |before|, stop, one).0
                == Some(Arguments.DropReturns(if call.isMacro then w + s else s))
  {
    hide Directive, SameText, Blank, Trim, Arguments.ReadSexp, Arguments.Quote, Sane, Holds;
    WordIsDirective(directive, "%qbody", QuotedBody, Protect(post));
    ExpandBetween(pre, directive, post, QuotedBody, call, k);
    Led(w, s);
    var text := if call.isMacro then w + s else s;
    EndIsCString(w, s);
    quoted := Arguments.Quote(text);
    forall b, before, after, stop, one | Sane(b) && (after == "" || after[0] in {' ', '\t', '\n'})
      ensures Arguments.ReadSexp(b, before + quoted + after, |before|, stop, one).0 == Some(Arguments.DropReturns(text))
    {
      var whole := before + quoted + after;
      HoldsAt(before, quoted, after);
      assert after != "" ==> whole[|before| + |quoted|] == after[0];
      Arguments.ReadAfterQuote(b, whole, |before|, text, stop, one);
    }
  }

  lemma EndIsCString(w: string, s: string)
    requires Arguments.CString(w + s)
    ensures Arguments.CString(s)
  {
    forall k | 0 <= k < |s| ensures s[k] != '\0' {
      assert (w + s)[|w| + k] == s[k];
    }
  }

  /** A body that is missing or all whitespace leaves nothing. */
  lemma FillsNoBody(pre: string, directive: string, post: string, word: string, p: Piece, call: Call, k: nat)
    requires p in {BodyText, QuotedBody} && IsWord(word, p) && SameText(directive, word)
    requires call.body.Some? ==> AllWhitespace(call.body.value)
    ensures Expand(Between(pre, directive, post), call, k) == pre + post
  {
    hide Directive, SameText, Blank;
    WordIsDirective(directive, word, p, Protect(post));
    ExpandBetween(pre, directive, post, p, call, k);
    if call.body.Some? { AllBlank(call.body.value); }
    assert pre + "" + post == pre + post;
  }

  /** `%0` to `%9` are replaced by the arguments at these positions. */
  lemma FillsArgument(pre: string, n: nat, post: string, w: string, s: string, call: Call, k: nat)
    requires n < 10 && n < |call.positional| && Leads(w, s) && call.positional[n] == w + s
    ensures Expand(Between(pre, ['%', "0123456789"[n]], post), call, k) == pre + (w + s) + post
  {
    hide Directive, Blank;
    DigitIsDirective(n, Protect(post));
    ExpandBetween(pre, ['%', "0123456789"[n]], post, Positional(n), call, k);
    Led(w, s);
  }

  /** An argument that is missing or all whitespace leaves nothing. */
  lemma FillsNoArgument(pre: string, n: nat, post: string, call: Call, k: nat)
    requires n < 10 && (n < |call.positional| ==> AllWhitespace(call.positional[n]))
    ensures Expand(Between(pre, ['%', "0123456789"[n]], post), call, k) == pre + post
  {
    hide Directive, Blank;
    DigitIsDirective(n, Protect(post));
    ExpandBetween(pre, ['%', "0123456789"[n]], post, Positional(n), call, k);
    if n < |call.positional| { AllBlank(call.positional[n]); }
    assert pre + "" + post == pre + post;
  }

  /** `%attributes` is replaced by the attributes without exactly their leading whitespace, if there are any. */
  lemma FillsAttributes(pre: string, directive: string, post: string, w: string, s: string, call: Call, k: nat)
    requires SameText(directive, "%attributes") && call.attributes == w + s
    requires Leads(w, s) || (AllWhitespace(w) && s == "")
    ensures Expand(Between(pre, directive, post), call, k) == pre + s + post
  {
    hide Directive, SameText, Blank, Trim;
    WordIsDirective(directive, "%attributes", Attributes, Protect(post));
    ExpandBetween(pre, directive, post, Attributes, call, k);
    if s == "" {
      assert w + s == w;
      AllBlank(w);
    } else {
      Led(w, s);
    }
  }

  /** What evaluating the body for the `k`-th time gives; nothing without a body. */
  function Evaluation(call: Call, k: nat): string {
    if call.body.None? then "" else match call.evaluate(k) case Some(s) => s case None => ""
  }

  /** Each `%xbody` is replaced by an evaluation of its own, in order. */
  lemma FillsEvaluations(pre: string, first: string, mid: string, second: string, post: string, call: Call, k: nat)
    requires SameText(first, "%xbody") && SameText(second, "%xbody")
    ensures Expand(Protect(pre) + (first + Between(mid, second, post)), call, k)
         == pre + (Evaluation(call, k) + (mid + Evaluation(call, k + 1) + post))
  {
    hide Directive, SameText, Expand;
    var rest := Between(mid, second, post);
    ExpandAfter(pre, first + rest, call, k);
    WordIsDirective(first, "%xbody", EvaluatedBody, rest);
    ExpandDirective(first, rest, EvaluatedBody, call, k);
    WordIsDirective(second, "%xbody", EvaluatedBody, Protect(post));
    ExpandBetween(mid, second, post, EvaluatedBody, call, k + 1);
  }

  /** A percent sign before anything else, or at the end, stays. */
  lemma OtherPercentStays(pre: string, c: char, post: string, call: Call, k: nat)
    requires !('0' <= c <= '9') && c != '\\' && Lower(c) !in {'b', 'q', 'x', 'a'}
    ensures Expand(Between(pre, ['%', c], post), call, k) == pre + ['%', c] + post
    ensures Expand(Protect(pre) + "%", call, k) == pre + "%"
  {
    hide Expand;
    var t := ['%', c] + Protect(post);
    ExpandAfter(pre, t, call, k);
    NotWordAt(t, 1, "body", 0);
    NotWordAt(t, 1, "qbody", 0);
    NotWordAt(t, 1, "xbody", 0);
    NotWordAt(t, 1, "attributes", 0);
    assert Directive(t) == ([Literal('%'), Literal(c)], 2);
    TwoLiterals(t, Protect(post), '%', c, call, k);
    ProtectedExpands(post, call, k);
    Regroup(pre, ['%', c], post);
    ExpandAfter(pre, "%", call, k);
    LonePercent(call, k);
  }

  lemma TwoLiterals(t: string, rest: string, c: char, d: char, call: Call, k: nat)
    requires t == [c, d] + rest && Directive(t) == ([Literal(c), Literal(d)], 2)
    ensures Expand(t, call, k) == [c, d] + Expand(rest, call, k)
  {
    hide Directive;
    assert t[2..] == rest;
    assert Parse(t) == [Literal(c)] + ([Literal(d)] + Parse(rest));
    FillLiteral(c, [Literal(d)] + Parse(rest), call, k);
    FillLiteral(d, Parse(rest), call, k);
    assert [c] + ([d] + Expand(rest, call, k)) == [c, d] + Expand(rest, call, k);
  }

  lemma LonePercent(call: Call, k: nat)
    ensures Expand("%", call, k) == "%"
  {
    assert Directive("%") == ([Literal('%')], 1) && Parse("") == [];
    assert Parse("%") == [Literal('%')] + [];
    FillLiteral('%', [], call, k);
  }

  // ---------------------------------------------------------------- case

  /** The pieces are the same but for the case of literal characters. */
  predicate SamePieces(ps: seq<Piece>, qs: seq<Piece>) {
    |ps| == |qs| && forall k :: 0 <= k < |ps| ==>
      ps[k] == qs[k] || (ps[k].Literal? && qs[k].Literal? && SameLetter(ps[k].c, qs[k].c))
  }

  lemma DirectiveBlind(t: string, t': string)
    requires SameText(t, t') && t != ""
    ensures Directive(t).1 == Directive(t').1 && SamePieces(Directive(t).0, Directive(t').0)
  {
    assert SameLetter(t[0], t'[0]) && (|t| > 1 ==> SameLetter(t[1], t'[1]));
    WordAtBlind(t, t', 1, "body");
    WordAtBlind(t, t', 1, "qbody");
    WordAtBlind(t, t', 1, "xbody");
    WordAtBlind(t, t', 1, "attributes");
  }

  lemma {:induction false} ParseBlind(t: string, t': string)
    requires SameText(t, t')
    ensures SamePieces(Parse(t), Parse(t'))
    decreases |t|
  {
    hide Directive;
    if t != "" {
      DirectiveBlind(t, t');
      var n := Directive(t).1;
      ParseBlind(t[n..], t'[n..]);
      PiecesJoin(Directive(t).0, Directive(t').0, Parse(t[n..]), Parse(t'[n..]));
    }
  }

  lemma PiecesJoin(ps: seq<Piece>, ps': seq<Piece>, qs: seq<Piece>, qs': seq<Piece>)
    requires SamePieces(ps, ps') && SamePieces(qs, qs')
    ensures SamePieces(ps + qs, ps' + qs')
  {
  }

  lemma {:induction false} FillBlind(ps: seq<Piece>, qs: seq<Piece>, call: Call, k: nat)
    requires SamePieces(ps, qs)
    ensures SameText(Fill(ps, call, k), Fill(qs, call, k))
    decreases |ps|
  {
    if ps != [] {
      var k' := if ps[0] == EvaluatedBody then k + 1 else k;
      FillBlind(ps[1..], qs[1..], call, k');
      hide FillPiece;
      PieceBlind(ps[0], qs[0], call, k);
      SameTextParts(FillPiece(ps[0], call, k), FillPiece(qs[0], call, k), Fill(ps[1..], call, k'),
                    Fill(qs[1..], call, k'));
    }
  }

  lemma PieceBlind(p: Piece, q: Piece, call: Call, k: nat)
    requires p == q || (p.Literal? && q.Literal? && SameLetter(p.c, q.c))
    ensures SameText(FillPiece(p, call, k), FillPiece(q, call, k))
  {
  }

  /** Case does not matter: templates that differ only in case expand to texts that differ only in case. */
  lemma ExpandBlind(t: string, t': string, call: Call, k: nat)
    requires SameText(t, t')
    ensures SameText(Expand(t, call, k), Expand(t', call, k))
  {
    ParseBlind(t, t');
    FillBlind(Parse(t), Parse(t'), call, k);
  }
}

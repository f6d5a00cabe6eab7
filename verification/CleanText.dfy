/** What cleaning does to a text, piece by piece (libmhtml/cleaner.c). */
module CleanText {
  import opened CText
  import opened Slices
  import opened Cleaner

  // ---------------------------------------------------------------- one part after the other

  /** What the scanner carries from one part of the text to the next. */
  datatype Carried = Carried(st: State, newlines: nat, blanks: nat)

  const NOTHING := Carried(START, 0, 0)

  function RunOn(before: string, text: string, beyond: string, p: Carried, b: bool): string {
    Run(before, text, beyond, p.st, p.newlines, p.blanks, b)
  }

  function Step(before: string, c: char, after: string, p: Carried): Carried {
    var st := Track(before, c, after, p.st);
    if Protected(p.st) then p.(st := st)
    else if Newline(c) then p.(newlines := p.newlines + 1)
    else if Whitespace(c) then p.(blanks := p.blanks + 1)
    else Carried(st, 0, 0)
  }

  function Carry(before: string, text: string, after: string, p: Carried): Carried
    decreases |text|
  {
    if text == "" then p
    else Carry(before + [text[0]], text[1..], after, Step(before, text[0], text[1..] + after, p))
  }

  /** What one character writes. */
  function Written(c: char, p: Carried, b: bool): string {
    if Protected(p.st) then [c] else if Whitespace(c) then "" else Gap(p.newlines, p.blanks, c, b) + [c]
  }

  lemma RunStep(before: string, c: char, rest: string, beyond: string, p: Carried, b: bool)
    ensures RunOn(before, [c] + rest, beyond, p, b)
         == Written(c, p, b) + RunOn(before + [c], rest, beyond, Step(before, c, rest + beyond, p), b)
  {
    hide Track, Gap;
    assert ([c] + rest)[1..] == rest;
  }

  lemma {:induction false} RunParts(before: string, text: string, rest: string, beyond: string, p: Carried, b: bool)
    ensures RunOn(before, text + rest, beyond, p, b)
         == RunOn(before, text, rest + beyond, p, b)
            + RunOn(before + text, rest, beyond, Carry(before, text, rest + beyond, p), b)
    decreases |text|
  {
    hide Step, Written, Run;
    if text == "" {
      assert text + rest == rest && before + text == before;
      NothingRun(before, rest + beyond, p, b);
      assert "" + RunOn(before, rest, beyond, p, b) == RunOn(before, rest, beyond, p, b);
    } else {
      var c, text1 := text[0], text[1..];
      assert text == [c] + text1 && text + rest == [c] + (text1 + rest) && before + text == before + [c] + text1;
      Regroup(text1, rest, beyond);
      RunStep(before, c, text1 + rest, beyond, p, b);
      RunStep(before, c, text1, rest + beyond, p, b);
      var p' := Step(before, c, text1 + (rest + beyond), p);
      RunParts(before + [c], text1, rest, beyond, p', b);
      Regroup(Written(c, p, b), RunOn(before + [c], text1, rest + beyond, p', b),
              RunOn(before + text, rest, beyond, Carry(before + [c], text1, rest + beyond, p'), b));
    }
  }

  lemma NothingRun(before: string, beyond: string, p: Carried, b: bool)
    ensures RunOn(before, "", beyond, p, b) == ""
  {
  }

  lemma {:induction false} CarryParts(before: string, text: string, rest: string, after: string, p: Carried)
    ensures Carry(before, text + rest, after, p)
         == Carry(before + text, rest, after, Carry(before, text, rest + after, p))
    decreases |text|
  {
    hide Step;
    if text == "" {
      assert text + rest == rest && before + text == before;
    } else {
      var c, text1 := text[0], text[1..];
      assert (text + rest)[1..] == text1 + rest && before + text == before + [c] + text1;
      Regroup(text1, rest, after);
      CarryParts(before + [c], text1, rest, after, Step(before, c, text1 + (rest + after), p));
    }
  }

  /** The state carried is the one after the text. */
  lemma {:induction false} CarryState(before: string, text: string, after: string, p: Carried)
    ensures Carry(before, text, after, p).st == StateAfter(before, text, after, p.st)
    decreases |text|
  {
    if text != "" {
      if Whitespace(text[0]) { BlanksKeepState(before, text[0], text[1..] + after, p.st); }
      NewlineIsWhitespace(text[0]);
      hide Track;
      CarryState(before + [text[0]], text[1..], after, Step(before, text[0], text[1..] + after, p));
    }
  }

  lemma BlanksKeepState(before: string, c: char, after: string, st: State)
    requires c != '"' && c != '<' && c != '>'
    ensures Track(before, c, after, st) == st
  {
  }

  // ---------------------------------------------------------------- which whitespace is written

  /** How many of the characters end a line. */
  function LineEnds(w: string): nat {
    multiset(w)['\r'] + multiset(w)['\n']
  }

  lemma LineEndsHead(w: string)
    requires w != ""
    ensures LineEnds(w) == (if Newline(w[0]) then 1 else 0) + LineEnds(w[1..])
  {
    assert w == [w[0]] + w[1..];
  }

  /** Unprotected whitespace is counted, and nothing of it is written yet. */
  lemma {:induction false} WhitespaceIsCarried(before: string, w: string, after: string, p: Carried, b: bool)
    requires AllWhitespace(w) && !Protected(p.st)
    ensures LineEnds(w) <= |w|
    ensures Carry(before, w, after, p) == Carried(p.st, p.newlines + LineEnds(w), p.blanks + (|w| - LineEnds(w)))
    ensures RunOn(before, w, after, p, b) == ""
    decreases |w|
  {
    hide Protected, Track;
    if w != "" {
      hide LineEnds;
      LineEndsHead(w);
      NewlineIsWhitespace(w[0]);
      WhitespaceIsCarried(before + [w[0]], w[1..], after, Step(before, w[0], w[1..] + after, p), b);
      assert w == [w[0]] + w[1..];
      RunStep(before, w[0], w[1..], after, p, b);
    } else {
      assert LineEnds("") == 0;
    }
  }

  /** Whitespace is carried only where nothing is protected, and only as long as nothing else comes. */
  lemma {:induction false} NothingIsCarried(before: string, text: string, after: string, p: Carried)
    requires Protected(p.st) || text == "" ==> p.newlines == p.blanks == 0
    requires text != "" ==> !Whitespace(text[|text| - 1])
    ensures var p' := Carry(before, text, after, p); p'.newlines == p'.blanks == 0
    decreases |text|
  {
    hide Track;
    if text != "" {
      var p1 := Step(before, text[0], text[1..] + after, p);
      NewlineIsWhitespace(text[0]);
      assert |text| > 1 ==> text[1..][|text| - 2] == text[|text| - 1];
      NothingIsCarried(before + [text[0]], text[1..], after, p1);
    }
  }

  /** What stands for the whitespace `w` in front of the character `c`: nothing before a closing bracket;
      otherwise one newline if a line ends in it, two if lines are kept apart and more than one does, one blank
      if none does, and nothing if there is no whitespace. */
  predicate StandsFor(gap: string, w: string, c: char, b: bool) {
    && (c == '>' ==> gap == "")
    && (c != '>' && w == "" ==> gap == "")
    && (c != '>' && w != "" && LineEnds(w) == 0 ==> gap == " ")
    && (c != '>' && LineEnds(w) > 0 && !(b && LineEnds(w) > 1) ==> gap == "\n")
    && (c != '>' && b && LineEnds(w) > 1 ==> gap == "\n\n")
  }

  /** Outside protection, all the whitespace before a character is replaced by what stands for it. What comes
      before is cleaned as it would be without it, and the rest goes on with nothing left over. */
  lemma WhitespaceIsWritten(text: string, w: string, c: char, rest: string, beyond: string, b: bool)
    returns (gap: string)
    requires AllWhitespace(w) && !Whitespace(c) && (text != "" ==> !Whitespace(text[|text| - 1]))
    requires !Protected(StateAfter("", text, w + ([c] + rest) + beyond, START))
    ensures StandsFor(gap, w, c, b)
    ensures var st := StateAfter("", text, w + ([c] + rest) + beyond, START);
            Clean(text + (w + ([c] + rest)), beyond, b)
            == Clean(text, w + ([c] + rest) + beyond, b)
               + (gap + [c] + Run(text + w + [c], rest, beyond, Track(text + w, c, rest + beyond, st), 0, 0, b))
  {
    hide Track, Protected, Run, LineEnds, StateAfter, Gap;
    var tail := [c] + rest;
    var after := w + tail + beyond;
    var p := Carry("", text, after, NOTHING);
    StartsUnprotected();
    NothingIsCarried("", text, after, NOTHING);
    CarryState("", text, after, NOTHING);
    assert "" + text == text;
    RunParts("", text, w + tail, beyond, NOTHING, b);
    RunParts(text, w, tail, beyond, p, b);
    WhitespaceIsCarried(text, w, tail + beyond, p, b);
    var p' := Carry(text, w, tail + beyond, p);
    RunStep(text + w, c, rest, beyond, p', b);
    gap := Gap(p'.newlines, p'.blanks, c, b);
    GapStandsFor(w, c, b);
    NewlineIsWhitespace(c);
  }

  lemma StartsUnprotected()
    ensures !Protected(START)
  {
  }

  lemma GapStandsFor(w: string, c: char, b: bool)
    requires LineEnds(w) <= |w|
    ensures StandsFor(Gap(LineEnds(w), |w| - LineEnds(w), c, b), w, c, b)
  {
    assert w == "" ==> LineEnds(w) == 0;
  }

  /** Whitespace at the end of the text vanishes. */
  lemma WhitespaceAtTheEnd(text: string, w: string, beyond: string, b: bool)
    requires AllWhitespace(w) && !Protected(StateAfter("", text, w + beyond, START))
    ensures Clean(text + w, beyond, b) == Clean(text, w + beyond, b)
  {
    hide Track, Protected, Run, LineEnds, StateAfter;
    var p := Carry("", text, w + beyond, NOTHING);
    CarryState("", text, w + beyond, NOTHING);
    assert "" + text == text;
    RunParts("", text, w, beyond, NOTHING, b);
    WhitespaceIsCarried(text, w, beyond, p, b);
  }

  // ---------------------------------------------------------------- what is protected

  /** No quotes and no brackets. */
  predicate NoMarks(text: string) {
    forall k :: 0 <= k < |text| ==> text[k] != '"' && text[k] != '<' && text[k] != '>'
  }

  lemma {:induction false} StateAfterParts(before: string, text: string, rest: string, after: string, st: State)
    ensures StateAfter(before, text + rest, after, st)
         == StateAfter(before + text, rest, after, StateAfter(before, text, rest + after, st))
    decreases |text|
  {
    hide Track;
    if text == "" {
      assert text + rest == rest && before + text == before;
    } else {
      var text1 := text[1..];
      assert (text + rest)[1..] == text1 + rest && before + text == before + [text[0]] + text1;
      Regroup(text1, rest, after);
      StateAfterParts(before + [text[0]], text1, rest, after, Track(before, text[0], text1 + (rest + after), st));
    }
  }

  lemma {:induction false} NoMarksKeepState(before: string, text: string, after: string, st: State)
    requires NoMarks(text)
    ensures StateAfter(before, text, after, st) == st
    decreases |text|
  {
    if text != "" {
      BlanksKeepState(before, text[0], text[1..] + after, st);
      NoMarksKeepState(before + [text[0]], text[1..], after, st);
    }
  }

  lemma OneMark(before: string, c: char, after: string, st: State)
    ensures StateAfter(before, [c], after, st) == Track(before, c, after, st)
  {
    hide Track;
    assert [c][1..] == "" && "" + after == after;
  }

  /** In a string everything up to the next quote is copied, brackets and whitespace included. */
  lemma {:induction false} StringIsProtected(before: string, text: string, after: string, st: State)
    requires st.quoted && '"' !in text
    ensures ProtectedThrough(before, text, after, st) && StateAfter(before, text, after, st) == st
    decreases |text|
  {
    if text != "" {
      assert text[0] != '"';
      StringIsProtected(before + [text[0]], text[1..], after, st);
    }
  }

  /** A string, from quote to quote, leaves the state as it was. */
  lemma StringKeepsState(before: string, text: string, after: string, st: State)
    requires !st.quoted && '"' !in text
    ensures StateAfter(before, ['"'] + (text + ['"']), after, st) == st
  {
    hide Track;
    var close := ['"'];
    QuoteTurns(before, text + close + after, st);
    QuoteTurns(before + close + text, after, st.(quoted := true));
    StateAfterParts(before, close, text + close, after, st);
    OneMark(before, '"', text + close + after, st);
    StateAfterParts(before + close, text, close, after, st.(quoted := true));
    StringIsProtected(before + close, text, close + after, st.(quoted := true));
    OneMark(before + close + text, '"', after, st.(quoted := true));
  }

  lemma QuoteTurns(before: string, after: string, st: State)
    ensures Track(before, '"', after, st).quoted == !st.quoted
    ensures Track(before, '"', after, st).(quoted := st.quoted) == st
  {
  }

  /** One more element of the name is open, or one less. */
  function Opened(st: State, name: string, n: nat): State {
    match name
    case "pre" => st.(pre := n)
    case "textarea" => st.(textarea := n)
    case "script" => st.(script := n)
    case _ => st
  }

  function OpenNow(st: State, name: string): nat {
    match name
    case "pre" => st.pre
    case "textarea" => st.textarea
    case "script" => st.script
    case _ => 0
  }

  /** The three elements whose content is protected. */
  predicate Guarded(name: string) {
    name in {"pre", "textarea", "script"}
  }

  /** A word at the end of a text, in any case. */
  lemma EndsWithWritten(before: string, written: string, w: string)
    requires SameText(written, w) && forall k :: 0 <= k < |w| ==> !('A' <= w[k] <= 'Z')
    ensures EndsWithWord(before + written, w)
  {
    var s := before + written;
    assert |s| - |w| == |before| && s[|before|..|before| + |w|] == written;
    hide WordAt, SameText;
    WordAtIs(s, |before|, w);
  }

  /** Words that end in different letters do not end the same text. */
  lemma EndsOtherwise(s: string, w: string)
    requires s != "" && w != "" && Lower(s[|s| - 1]) != w[|w| - 1]
    ensures !EndsWithWord(s, w)
  {
    EndsWithLast(s, w);
  }

  /** The character before the name tells an opener from a closer. */
  lemma EndsWithBefore(before: string, c: char, written: string, d: char, w: string)
    requires SameText(written, w) && Lower(c) != d
    ensures !EndsWithWord(before + [c] + written, [d] + w)
  {
    var s, dw := before + [c] + written, [d] + w;
    var i := |s| - |dw|;
    assert s[i] == c && dw[0] == d;
    NotWordAt(s, i, dw, 0);
  }

  lemma LastLetters(before: string, written: string, name: string, other: string)
    requires Guarded(name) && Guarded(other) && name != other && SameText(written, name)
    ensures !EndsWithWord(before + written, "<" + other) && !EndsWithWord(before + written, "</" + other)
  {
    var s := before + written;
    assert SameLetter(s[|s| - 1], name[|name| - 1]) by { assert SameLetter(written[|name| - 1], name[|name| - 1]); }
    assert ("<" + other)[|other|] == ("</" + other)[|other| + 1] == other[|other| - 1];
    EndsOtherwise(s, "<" + other);
    EndsOtherwise(s, "</" + other);
  }

  /** At the bracket that ends `<name>`, written in any case, one more is open; at that of `</name>` one less, if
      any is. The other names count the same. */
  lemma CountWritten(before: string, slash: bool, written: string, name: string, other: string, open: nat)
    requires Guarded(name) && Guarded(other) && SameText(written, name)
    ensures Count(before + (if slash then "</" else "<") + written, other, open) ==
            if name != other then open else if !slash then open + 1 else if open > 0 then open - 1 else open
  {
    hide EndsWithWord;
    var mark := if slash then "</" else "<";
    if name != other {
      LastLetters(before + mark, written, name, other);
    } else {
      assert before + mark + written == before + (mark + written);
      assert SameText(mark + written, mark + name);
      EndsWithWritten(before, mark + written, mark + name);
      if slash {
        assert before + mark == before + ['<'] + ['/'];
        EndsWithBefore(before + ['<'], '/', written, '<', name);
      }
    }
  }

  /** The names start with different letters, and `<name>` has no whitespace after the name. */
  lemma NoLookAhead(slash: bool, written: string, after: string, name: string, other: string)
    requires Guarded(name) && other in {"textarea", "script"} && SameText(written, name)
    ensures !StartsTag((if slash then "/" else "") + written + ">" + after, other)
  {
    var s := (if slash then "/" else "") + written + ">" + after;
    assert SameLetter(written[0], name[0]);
    if slash {
      assert s[0] == '/';
    } else if name == other {
      assert s[|name|] == '>';
    } else {
      assert s[0] == written[0];
    }
    if s[0] != '/' && name == other { return; }
    NotWordAt(s, 0, other, 0);
  }

  function Mark(slash: bool): string {
    if slash then "</" else "<"
  }

  /** After `<name>` one more element of that name is open, after `</name>` one less, if any is, in any case. */
  lemma TagCounts(before: string, slash: bool, written: string, after: string, name: string, st: State)
    requires Guarded(name) && SameText(written, name) && !st.quoted
    ensures var n := OpenNow(st, name);
            StateAfter(before, Mark(slash) + written + ">", after, st)
            == Opened(st, name, if !slash then n + 1 else if n > 0 then n - 1 else n)
  {
    hide StateAfter, StartsTag, Count;
    var inner := (if slash then "/" else "") + written;
    var text := Mark(slash) + written + ">";
    assert text == "<" + (inner + ">");
    StateAfterParts(before, "<", inner + ">", after, st);
    OneMark(before, '<', inner + ">" + after, st);
    NoLookAhead(slash, written, after, name, "textarea");
    NoLookAhead(slash, written, after, name, "script");
    assert inner + ">" + after == (if slash then "/" else "") + written + ">" + after;
    StateAfterParts(before + "<", inner, ">", after, st);
    NameHasNoMarks(slash, written, name);
    NoMarksKeepState(before + "<", inner, ">" + after, st);
    OneMark(before + "<" + inner, '>', after, st);
    assert before + "<" + inner == before + Mark(slash) + written;
    CountWritten(before, slash, written, name, "pre", st.pre);
    CountWritten(before, slash, written, name, "textarea", st.textarea);
    CountWritten(before, slash, written, name, "script", st.script);
  }

  lemma NameHasNoMarks(slash: bool, written: string, name: string)
    requires Guarded(name) && SameText(written, name)
    ensures NoMarks((if slash then "/" else "") + written)
  {
    forall k | 0 <= k < |written| ensures written[k] != '"' && written[k] != '<' && written[k] != '>' {
      assert SameLetter(written[k], name[k]);
    }
  }

  /** With attributes the element is open from its very first bracket on. */
  lemma AttributesCount(before: string, written: string, blank: char, after: string, name: string, st: State)
    requires name in {"textarea", "script"} && SameText(written, name) && Whitespace(blank) && !st.quoted
    ensures StateAfter(before, "<" + written + [blank], after, st) == Opened(st, name, OpenNow(st, name) + 1)
  {
    hide StateAfter, StartsTag;
    var rest := written + [blank];
    assert "<" + written + [blank] == "<" + rest;
    StateAfterParts(before, "<", rest, after, st);
    OneMark(before, '<', rest + after, st);
    WrittenStarts(written, blank, after, name, name);
    WrittenStarts(written, blank, after, name, "textarea");
    NameHasNoMarks(false, written, name);
    assert "" + written == written;
    NoMarksKeepState(before + "<", rest, after, Opened(st, name, OpenNow(st, name) + 1));
  }

  lemma WrittenStarts(written: string, blank: char, after: string, name: string, other: string)
    requires name in {"textarea", "script"} && other in {"textarea", "script"}
    requires SameText(written, name) && Whitespace(blank)
    ensures StartsTag(written + [blank] + after, other) <==> name == other
  {
    var s := written + [blank] + after;
    assert SameLetter(written[0], name[0]) && s[0] == written[0];
    if name == other {
      assert s[0..|name|] == written && s[|name|] == blank;
      WordAtIs(s, 0, name);
    } else {
      NotWordAt(s, 0, other, 0);
    }
  }

  // ---------------------------------------------------------------- protected elements

  predicate NoTagEnds(s: string, name: string) {
    !EndsWithWord(s, "<" + name) && !EndsWithWord(s, "</" + name)
  }

  /** No string, and no tag of a protected element, though perhaps others. */
  predicate Quiet(body: string) {
    forall k :: 0 <= k < |body| ==>
      && body[k] != '"'
      && (body[k] == '<' ==> !StartsTag(body[k + 1..], "textarea") && !StartsTag(body[k + 1..], "script"))
      && (body[k] == '>' ==> NoTagEnds(body[..k], "pre") && NoTagEnds(body[..k], "textarea")
                             && NoTagEnds(body[..k], "script"))
  }

  lemma {:induction false} TokenAfter(before: string, t: string)
    requires Token(before) == ""
    ensures Token(before + t) == Token(t)
    decreases |t|
  {
    if t == "" {
      assert before + t == before;
    } else {
      var t', c := t[..|t| - 1], t[|t| - 1];
      assert t == t' + [c] && before + t == before + t' + [c];
      TokenAfter(before, t');
      TokenPush(before + t', c);
      TokenPush(t', c);
    }
  }

  lemma QuietLookBehind(before: string, body: string, k: nat, name: string, open: nat)
    requires Token(before) == "" && Quiet(body) && k < |body| && body[k] == '>' && Guarded(name)
    ensures Count(before + body[..k], name, open) == open
  {
    hide EndsWithWord, Token, StartsTag;
    TokenAfter(before, body[..k]);
    LookBehindSeesToken(before + body[..k], "<" + name);
    LookBehindSeesToken(before + body[..k], "</" + name);
    LookBehindSeesToken(body[..k], "<" + name);
    LookBehindSeesToken(body[..k], "</" + name);
  }

  lemma WordAtPrefix(s: string, t: string, w: string)
    requires |w| <= |s|
    ensures WordAt(s + t, 0, w) == WordAt(s, 0, w)
  {
    assert forall k :: 0 <= k < |s| ==> (s + t)[k] == s[k];
  }

  lemma QuietLookAhead(body: string, k: nat, after: string, w: string)
    requires Quiet(body) && k < |body| && body[k] == '<' && w in {"textarea", "script"}
    requires after == "" || after[0] == '<'
    ensures !StartsTag(body[k + 1..] + after, w)
  {
    var t := body[k + 1..];
    var s := t + after;
    if |s| <= |w| {
    } else if |t| < |w| {
      assert s[0 + |t|] == '<';
      NotWordAt(s, 0, w, |t|);
    } else if |t| == |w| {
      assert s[|w|] == '<';
    } else {
      WordAtPrefix(t, after, w);
    }
  }

  lemma QuietStep(before: string, body: string, k: nat, after: string, st: State)
    requires Token(before) == "" && Quiet(body) && k < |body| && (after == "" || after[0] == '<') && !st.quoted
    ensures Track(before + body[..k], body[k], body[k + 1..] + after, st) == st
  {
    hide StartsTag, Count, EndsWithWord, Token;
    if body[k] == '<' {
      QuietLookAhead(body, k, after, "textarea");
      QuietLookAhead(body, k, after, "script");
    } else if body[k] == '>' {
      QuietLookBehind(before, body, k, "pre", st.pre);
      QuietLookBehind(before, body, k, "textarea", st.textarea);
      QuietLookBehind(before, body, k, "script", st.script);
    }
  }

  /** Quiet text keeps the state, so that it stays protected if it is. */
  lemma {:induction false} QuietKeepsState(before: string, body: string, k: nat, after: string, st: State)
    requires Token(before) == "" && Quiet(body) && k <= |body| && (after == "" || after[0] == '<') && !st.quoted
    ensures StateAfter(before + body[..k], body[k..], after, st) == st
    ensures Protected(st) ==> ProtectedThrough(before + body[..k], body[k..], after, st)
    decreases |body| - k
  {
    hide Track, Token, Quiet;
    if k < |body| {
      QuietStep(before, body, k, after, st);
      QuietKeepsState(before, body, k + 1, after, st);
      assert body[k..][1..] == body[k + 1..] && before + body[..k] + [body[k]] == before + body[..k + 1];
    }
  }

  lemma {:induction false} ProtectedParts(before: string, text: string, rest: string, after: string, st: State)
    requires ProtectedThrough(before, text, rest + after, st)
    requires ProtectedThrough(before + text, rest, after, StateAfter(before, text, rest + after, st))
    ensures ProtectedThrough(before, text + rest, after, st)
    decreases |text|
  {
    hide Track;
    if text == "" {
      assert text + rest == rest && before + text == before;
    } else {
      var text1 := text[1..];
      assert (text + rest)[1..] == text1 + rest && before + text == before + [text[0]] + text1;
      Regroup(text1, rest, after);
      ProtectedParts(before + [text[0]], text1, rest, after, Track(before, text[0], text1 + (rest + after), st));
    }
  }

  /** The content of `<pre>`, `<textarea>` and `<script>` is copied as it is, together with their tags, whatever
      their case, and cleaning goes on after it as before it. */
  lemma ElementIsVerbatim(before: string, first: string, body: string, last: string, name: string, rest: string,
                          beyond: string, st: State, b: bool)
    requires Guarded(name) && SameText(first, name) && SameText(last, name) && Quiet(body) && !Protected(st)
    ensures var element := "<" + first + ">" + body + ("</" + last + ">");
            Run(before, element + rest, beyond, st, 0, 0, b)
            == element + Run(before + element, rest, beyond, st, 0, 0, b)
  {
    hide Run, Track, Quiet, StateAfter, ProtectedThrough, Token, SameText;
    var opener, closer := "<" + first + ">", "</" + last + ">";
    var inner := body + closer;
    var here := before + opener;
    var st1 := Opened(st, name, OpenNow(st, name) + 1);
    OpenerIsCopied(before, first, inner + rest, beyond, name, st, b);
    ContentIsProtected(before, first, body, last, name, rest + beyond, st);
    ProtectedTextIsVerbatim(here, inner, rest, beyond, st1, 0, 0, b);
    var tail := Run(here + inner, rest, beyond, st, 0, 0, b);
    assert opener + body + closer + rest == opener + (inner + rest);
    assert here + inner == before + (opener + body + closer);
    assert opener + (inner + tail) == opener + body + closer + tail;
  }

  /** From the end of the opener to that of the closer everything is protected, and then the state is as before. */
  lemma ContentIsProtected(before: string, first: string, body: string, last: string, name: string, after: string,
                           st: State)
    requires Guarded(name) && SameText(last, name) && Quiet(body) && !Protected(st)
    ensures var here, inner := before + ("<" + first + ">"), body + ("</" + last + ">");
            var st1 := Opened(st, name, OpenNow(st, name) + 1);
            ProtectedThrough(here, inner, after, st1) && StateAfter(here, inner, after, st1) == st
  {
    hide Track, Quiet, StateAfter, ProtectedThrough, Token, SameText;
    var here, closer := before + ("<" + first + ">"), "</" + last + ">";
    var st1 := Opened(st, name, OpenNow(st, name) + 1);
    TokenPush(before + "<" + first, '>');
    assert before + "<" + first + ['>'] == here;
    assert body[0..] == body && here + body[..0] == here && (closer + after)[0] == '<';
    QuietKeepsState(here, body, 0, closer + after, st1);
    CloserIsProtected(here + body, last, after, name, st1);
    ProtectedParts(here, body, closer, after, st1);
    StateAfterParts(here, body, closer, after, st1);
    TagCounts(here + body, true, last, after, name, st1);
    assert Mark(true) + last + ">" == closer;
  }

  /** Text without whitespace is copied, protected or not, when nothing is carried into it. */
  lemma {:induction false} SolidIsCopied(before: string, text: string, after: string, p: Carried, b: bool)
    requires p.newlines == p.blanks == 0 && forall k :: 0 <= k < |text| ==> !Whitespace(text[k])
    ensures RunOn(before, text, after, p, b) == text
    ensures var p' := Carry(before, text, after, p); p'.newlines == p'.blanks == 0
    decreases |text|
  {
    hide Track, Run;
    if text == "" {
      NothingRun(before, after, p, b);
    } else {
      assert text == [text[0]] + text[1..];
      NewlineIsWhitespace(text[0]);
      RunStep(before, text[0], text[1..], after, p, b);
      SolidIsCopied(before + [text[0]], text[1..], after, Step(before, text[0], text[1..] + after, p), b);
    }
  }

  lemma OpenerIsCopied(before: string, first: string, rest: string, beyond: string, name: string, st: State, b: bool)
    requires Guarded(name) && SameText(first, name) && !st.quoted
    ensures var opener, st1 := "<" + first + ">", Opened(st, name, OpenNow(st, name) + 1);
            Run(before, opener + rest, beyond, st, 0, 0, b)
            == opener + Run(before + opener, rest, beyond, st1, 0, 0, b)
  {
    hide Run, StateAfter, Carry;
    var opener, p := "<" + first + ">", Carried(st, 0, 0);
    forall k | 0 <= k < |opener| ensures !Whitespace(opener[k]) {
      if 0 < k <= |first| { assert SameLetter(first[k - 1], name[k - 1]); }
    }
    SolidIsCopied(before, opener, rest + beyond, p, b);
    RunParts(before, opener, rest, beyond, p, b);
    CarryState(before, opener, rest + beyond, p);
    TagCounts(before, false, first, rest + beyond, name, st);
    assert Mark(false) + first + ">" == opener;
  }

  lemma {:induction false} NoMarksProtected(before: string, text: string, after: string, st: State)
    requires NoMarks(text) && Protected(st)
    ensures ProtectedThrough(before, text, after, st)
    decreases |text|
  {
    if text != "" {
      BlanksKeepState(before, text[0], text[1..] + after, st);
      NoMarksProtected(before + [text[0]], text[1..], after, st);
    }
  }

  lemma OneProtected(before: string, c: char, after: string, st: State)
    requires Protected(st)
    ensures ProtectedThrough(before, [c], after, st)
  {
  }

  lemma CloserIsProtected(before: string, last: string, after: string, name: string, st: State)
    requires Guarded(name) && SameText(last, name) && Protected(st) && !st.quoted
    ensures ProtectedThrough(before, "</" + last + ">", after, st)
  {
    hide ProtectedThrough, StartsTag, Protected, StateAfter, SameText;
    var inner := "/" + last;
    var rest := inner + ">";
    NameHasNoMarks(true, last, name);
    assert "<" + rest == "</" + last + ">" && inner + ">" + after == rest + after;
    NoLookAhead(true, last, after, name, "textarea");
    NoLookAhead(true, last, after, name, "script");
    OneMark(before, '<', rest + after, st);
    OneProtected(before, '<', rest + after, st);
    NoMarksProtected(before + "<", inner, ">" + after, st);
    NoMarksKeepState(before + "<", inner, ">" + after, st);
    OneProtected(before + "<" + inner, '>', after, st);
    ProtectedParts(before + "<", inner, ">", after, st);
    ProtectedParts(before, "<", rest, after, st);
  }

  // ---------------------------------------------------------------- case

  lemma StartsTagBlind(s: string, s': string, w: string)
    requires SameText(s, s')
    ensures StartsTag(s, w) == StartsTag(s', w)
  {
    WordAtBlind(s, s', 0, w);
    if |w| < |s| && s[|w|] != s'[|w|] { SameLetterIs(s[|w|], s'[|w|]); }
  }

  lemma CountBlind(s: string, s': string, name: string, open: nat)
    requires SameText(s, s')
    ensures Count(s, name, open) == Count(s', name, open)
  {
    WordAtBlind(s, s', |s| - |"<" + name|, "<" + name);
    WordAtBlind(s, s', |s| - |"</" + name|, "</" + name);
  }

  /** Look-ahead and look-behind do not see case. */
  lemma TrackBlind(before: string, before': string, c: char, c': char, after: string, after': string, st: State)
    requires SameText(before, before') && SameLetter(c, c') && SameText(after, after')
    ensures Track(before, c, after, st) == Track(before', c', after', st)
  {
    hide Count, StartsTag, SameText;
    StartsTagBlind(after, after', "textarea");
    StartsTagBlind(after, after', "script");
    CountBlind(before, before', "pre", st.pre);
    CountBlind(before, before', "textarea", st.textarea);
    CountBlind(before, before', "script", st.script);
    if c != c' { SameLetterIs(c, c'); }
  }

  lemma {:induction false} RunBlind(before: string, before': string, rest: string, rest': string, beyond: string,
                                       beyond': string, p: Carried, b: bool)
    requires SameText(before, before') && SameText(rest, rest') && SameText(beyond, beyond')
    ensures SameText(RunOn(before, rest, beyond, p, b), RunOn(before', rest', beyond', p, b))
    decreases |rest|
  {
    if rest == "" {
      NothingRun(before, beyond, p, b);
      NothingRun(before', beyond', p, b);
    } else {
      hide Run, Track;
      var c, c', rest1, rest1' := rest[0], rest'[0], rest[1..], rest'[1..];
      assert rest == [c] + rest1 && rest' == [c'] + rest1' && SameLetter(c, c');
      if c != c' { SameLetterIs(c, c'); }
      SameTextParts(before, before', [c], [c']);
      SameTextParts(rest1, rest1', beyond, beyond');
      TrackBlind(before, before', c, c', rest1 + beyond, rest1' + beyond', p.st);
      RunStep(before, c, rest1, beyond, p, b);
      RunStep(before', c', rest1', beyond', p, b);
      var p' := Step(before, c, rest1 + beyond, p);
      RunBlind(before + [c], before' + [c'], rest1, rest1', beyond, beyond', p', b);
      SameTextParts(Written(c, p, b), Written(c', p, b), RunOn(before + [c], rest1, beyond, p', b),
                    RunOn(before' + [c'], rest1', beyond', p', b));
    }
  }

  /** Case does not matter: texts that differ only in case are cleaned to texts that differ only in case. */
  lemma CleanBlind(text: string, text': string, beyond: string, beyond': string, b: bool)
    requires SameText(text, text') && SameText(beyond, beyond')
    ensures SameText(Clean(text, beyond, b), Clean(text', beyond', b))
  {
    hide Run;
    RunBlind("", "", text, text', beyond, beyond', NOTHING, b);
  }
}

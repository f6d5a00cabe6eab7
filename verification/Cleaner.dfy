/** The HTML whitespace cleaner (libmhtml/cleaner.c). */
module Cleaner {
  import opened CText
  import Slices

  /** What the scanner remembers: inside a double-quoted string, and how many `<pre>`,
      `<textarea>` and `<script>` elements are open. */
  datatype State = State(quoted: bool, pre: nat, textarea: nat, script: nat)

  const START := State(false, 0, 0, 0)

  predicate Protected(st: State) {
    st.quoted || st.pre != 0 || st.textarea != 0 || st.script != 0
  }

  /** `word` followed by whitespace starts `after`: the look-ahead of `<textarea ` and `<script `. */
  predicate StartsTag(after: string, word: string) {
    WordAt(after, 0, word) && |word| < |after| && Whitespace(after[|word|])
  }

  /** How many elements named `name` are open after the `>` that follows `before`. */
  function Count(before: string, name: string, open: nat): nat {
    if EndsWithWord(before, "<" + name) then open + 1
    else if open != 0 && EndsWithWord(before, "</" + name) then open - 1
    else open
  }

  /** The state after consuming `c`, with `before` already consumed and `after` still to come. */
  function Track(before: string, c: char, after: string, st: State): State {
    var quoted := if c == '"' then !st.quoted else st.quoted;
    if quoted then st.(quoted := true)
    else if c == '<' then
      if StartsTag(after, "textarea") then st.(quoted := false, textarea := st.textarea + 1)
      else if StartsTag(after, "script") then st.(quoted := false, script := st.script + 1)
      else st.(quoted := false)
    else if c == '>' then
      State(false, Count(before, "pre", st.pre), Count(before, "textarea", st.textarea),
            Count(before, "script", st.script))
    else st.(quoted := false)
  }

  /** What is written in front of `c` for the unprotected whitespace just skipped. */
  function Gap(newlines: nat, blanks: nat, c: char, beautify: bool): string {
    if c == '>' then ""
    else if newlines > 1 && beautify then "\n\n"
    else if newlines != 0 then "\n"
    else if blanks != 0 then " "
    else ""
  }

  /** The text written for `rest`, when `before` has been consumed and `beyond` is what the
      buffer holds after the region being cleaned. */
  function Run(before: string, rest: string, beyond: string, st: State, newlines: nat, blanks: nat, beautify: bool)
    : string
    decreases |rest|
  {
    if rest == "" then ""
    else
      var c := rest[0];
      var before', rest' := before + [c], rest[1..];
      if Protected(st) then
        [c] + Run(before', rest', beyond, Track(before, c, rest' + beyond, st), newlines, blanks, beautify)
      else if Newline(c) then Run(before', rest', beyond, st, newlines + 1, blanks, beautify)
      else if Whitespace(c) then Run(before', rest', beyond, st, newlines, blanks + 1, beautify)
      else
        Gap(newlines, blanks, c, beautify) + [c]
        + Run(before', rest', beyond, Track(before, c, rest' + beyond, st), 0, 0, beautify)
  }

  /** What cleaning `text` gives, `beyond` being the part of the buffer after it. */
  function Clean(text: string, beyond: string, beautify: bool): string {
    Run("", text, beyond, START, 0, 0, beautify)
  }

  // ---------------------------------------------------------------- idempotence

  /** The second run is in the same string and inside at least the elements of the first. */
  predicate Dominates(st2: State, st1: State) {
    st1.quoted == st2.quoted && st1.pre <= st2.pre && st1.textarea <= st2.textarea && st1.script <= st2.script
  }

  predicate Plain(c: char) {
    !Whitespace(c) && c != '>'
  }

  predicate AllPlain(w: string) {
    forall k :: 0 <= k < |w| ==> Plain(w[k])
  }

  /** The longest end of `s` without whitespace and without `>`; all a look-behind can see. */
  function Token(s: string): string {
    if s == "" || !Plain(s[|s| - 1]) then "" else Token(s[..|s| - 1]) + [s[|s| - 1]]
  }

  lemma TokenPush(s: string, c: char)
    ensures Token(s + [c]) == if Plain(c) then Token(s) + [c] else ""
  {
    assert (s + [c])[..|s|] == s;
  }

  lemma EndsWithLast(s: string, w: string)
    requires s != "" && w != ""
    ensures EndsWithWord(s, w) <==> EndsWithWord(s[..|s| - 1], w[..|w| - 1]) && Lower(s[|s| - 1]) == w[|w| - 1]
  {
    var s', w', i := s[..|s| - 1], w[..|w| - 1], |s| - |w|;
    if EndsWithWord(s, w) {
      assert Lower(s[i + (|w| - 1)]) == w[|w| - 1];
    } else if EndsWithWord(s', w') && Lower(s[|s| - 1]) == w[|w| - 1] {
      forall k | 0 <= k < |w| ensures Lower(s[i + k]) == w[k] {
        assert k < |w| - 1 ==> Lower(s'[i + k]) == w'[k];
      }
    }
  }

  lemma {:induction false} LookBehindSeesToken(s: string, w: string)
    requires AllPlain(w)
    ensures EndsWithWord(s, w) == EndsWithWord(Token(s), w)
    decreases |w|
  {
    if w != "" && s != "" {
      EndsWithLast(s, w);
      if Plain(s[|s| - 1]) {
        var t := Token(s);
        assert t[..|t| - 1] == Token(s[..|s| - 1]);
        LookBehindSeesToken(s[..|s| - 1], w[..|w| - 1]);
        EndsWithLast(t, w);
      }
    }
  }

  lemma CountSeesToken(s: string, t: string, name: string, open: nat)
    requires AllPlain(name) && Token(s) == Token(t)
    ensures Count(s, name, open) == Count(t, name, open)
  {
    LookBehindSeesToken(s, "<" + name);
    LookBehindSeesToken(t, "<" + name);
    LookBehindSeesToken(s, "</" + name);
    LookBehindSeesToken(t, "</" + name);
  }

  lemma CountNoToken(s: string, name: string, open: nat)
    requires AllPlain(name) && Token(s) == ""
    ensures Count(s, name, open) == open
  {
    LookBehindSeesToken(s, "<" + name);
    LookBehindSeesToken(s, "</" + name);
  }

  // The look-ahead at `<` reads text that the first run may still change.

  predicate AllLetters(w: string) {
    forall k :: 0 <= k < |w| ==> 'a' <= w[k] <= 'z'
  }

  lemma StartsTagTail(s: string, w: string)
    requires s != "" && w != ""
    ensures StartsTag(s, w) <==> Lower(s[0]) == w[0] && StartsTag(s[1..], w[1..])
  {
    if StartsTag(s, w) {
      assert Lower(s[0 + 0]) == w[0];
      forall k | 0 <= k < |w[1..]| ensures Lower(s[1..][0 + k]) == w[1..][k] {
        assert Lower(s[0 + (k + 1)]) == w[k + 1];
      }
    } else if Lower(s[0]) == w[0] && StartsTag(s[1..], w[1..]) {
      forall k | 0 <= k < |w| ensures Lower(s[0 + k]) == w[k] {
        assert k > 0 ==> Lower(s[1..][0 + (k - 1)]) == w[1..][k - 1];
      }
    }
  }

  /** Skipped whitespace shows as whitespace, or vanishes before `>` or at the end. */
  lemma {:induction false} GapComesFirst(before: string, rest: string, st: State, newlines: nat, blanks: nat, b: bool)
    requires !Protected(st) && newlines + blanks != 0
    ensures var out := Run(before, rest, "", st, newlines, blanks, b);
            out == "" || Whitespace(out[0]) || out[0] == '>'
    decreases |rest|
  {
    if rest != "" {
      var c := rest[0];
      if Newline(c) {
        GapComesFirst(before + [c], rest[1..], st, newlines + 1, blanks, b);
      } else if Whitespace(c) {
        GapComesFirst(before + [c], rest[1..], st, newlines, blanks + 1, b);
      }
    }
  }

  /** Inside a protected region the text up to the end of the word is copied as it is. */
  lemma {:induction false} LookAheadCopied(before: string, rest: string, st: State, b: bool, w: string)
    requires Protected(st) && AllLetters(w) && StartsTag(rest, w)
    ensures StartsTag(Run(before, rest, "", st, 0, 0, b), w)
    decreases |w|
  {
    var out := Run(before, rest, "", st, 0, 0, b);
    if w != "" {
      StartsTagTail(rest, w);
      LookAheadCopied(before + [rest[0]], rest[1..], st, b, w[1..]);
      assert out[1..] == Run(before + [rest[0]], rest[1..], "", st, 0, 0, b);
      StartsTagTail(out, w);
    }
  }

  /** A word followed by whitespace in the written text was followed by whitespace before. */
  lemma {:induction false} LookAheadWasThere(before: string, rest: string, st: State, b: bool, w: string)
    requires AllLetters(w) && StartsTag(Run(before, rest, "", st, 0, 0, b), w)
    ensures StartsTag(rest, w)
    decreases |w|
  {
    var out := Run(before, rest, "", st, 0, 0, b);
    var c := rest[0];
    if w != "" {
      StartsTagTail(out, w);
      if !Protected(st) && Whitespace(c) {
        GapComesFirst(before + [c], rest[1..], st, if Newline(c) then 1 else 0, if Newline(c) then 0 else 1, b);
        assert false;
      }
      assert out[1..] == Run(before + [c], rest[1..], "", st, 0, 0, b);
      LookAheadWasThere(before + [c], rest[1..], st, b, w[1..]);
      StartsTagTail(rest, w);
    }
  }

  // One step of the second run.

  predicate IsGap(gap: string, c: char, b: bool) {
    gap == "" || (c != '>' && (gap == " " || gap == "\n" || (b && gap == "\n\n")))
  }

  lemma StepBlank(before: string, c: char, rest: string, st: State, newlines: nat, blanks: nat, b: bool)
    requires Whitespace(c)
    ensures Run(before, [c] + rest, "", st, newlines, blanks, b) ==
            if Protected(st) then [c] + Run(before + [c], rest, "", st, newlines, blanks, b)
            else if Newline(c) then Run(before + [c], rest, "", st, newlines + 1, blanks, b)
            else Run(before + [c], rest, "", st, newlines, blanks + 1, b)
  {
    assert ([c] + rest)[1..] == rest && rest + "" == rest;
  }

  lemma StepSolid(before: string, c: char, rest: string, st: State, newlines: nat, blanks: nat, b: bool)
    requires !Whitespace(c)
    ensures var st' := Track(before, c, rest, st);
            Run(before, [c] + rest, "", st, newlines, blanks, b) ==
            if Protected(st) then [c] + Run(before + [c], rest, "", st', newlines, blanks, b)
            else Gap(newlines, blanks, c, b) + [c] + Run(before + [c], rest, "", st', 0, 0, b)
  {
    assert ([c] + rest)[1..] == rest && rest + "" == rest;
  }

  /** The second run copies a gap of the first run and the character after it. */
  lemma StepCopies(before: string, gap: string, c: char, rest: string, st: State, b: bool)
    requires !Whitespace(c) && IsGap(gap, c, b)
    ensures Run(before, gap + [c] + rest, "", st, 0, 0, b)
         == gap + [c] + Run(before + gap + [c], rest, "", Track(before + gap, c, rest, st), 0, 0, b)
  {
    hide Run, Track, Protected;
    if gap == "" {
      assert before + gap == before && gap + [c] + rest == [c] + rest;
      StepSolid(before, c, rest, st, 0, 0, b);
    } else if |gap| == 1 {
      assert gap == [gap[0]];
      StepCopiesOne(before, gap[0], c, rest, st, b);
    } else {
      StepCopiesTwo(before, c, rest, st, b);
    }
  }

  lemma StepCopiesOne(before: string, g: char, c: char, rest: string, st: State, b: bool)
    requires !Whitespace(c) && c != '>' && (g == ' ' || g == '\n')
    ensures Run(before, [g] + [c] + rest, "", st, 0, 0, b)
         == [g] + [c] + Run(before + [g] + [c], rest, "", Track(before + [g], c, rest, st), 0, 0, b)
  {
    hide Run, Track, Protected;
    var before1, tail := before + [g], Run(before + [g] + [c], rest, "", Track(before + [g], c, rest, st), 0, 0, b);
    assert [g] + [c] + rest == [g] + ([c] + rest) && [g] + [c] + tail == [g] + ([c] + tail);
    StepBlank(before, g, [c] + rest, st, 0, 0, b);
    StepSolid(before1, c, rest, st, if Newline(g) && !Protected(st) then 1 else 0,
              if Newline(g) || Protected(st) then 0 else 1, b);
  }

  lemma StepCopiesTwo(before: string, c: char, rest: string, st: State, b: bool)
    requires !Whitespace(c) && c != '>' && b
    ensures Run(before, "\n\n" + [c] + rest, "", st, 0, 0, b)
         == "\n\n" + [c] + Run(before + "\n\n" + [c], rest, "", Track(before + "\n\n", c, rest, st), 0, 0, b)
  {
    hide Run, Track, Protected;
    var before1, n := before + ['\n'], if Protected(st) then 0 else 1;
    assert "\n\n" + [c] + rest == ['\n'] + (['\n'] + ([c] + rest)) && before + "\n\n" == before1 + ['\n'];
    StepBlank(before, '\n', ['\n'] + ([c] + rest), st, 0, 0, b);
    StepBlank(before1, '\n', [c] + rest, st, n, 0, b);
    StepSolid(before1 + ['\n'], c, rest, st, 2 * n, 0, b);
  }

  lemma TrackDominates(before1: string, before2: string, c: char, after1: string, after2: string, st1: State,
                       st2: State)
    requires Dominates(st2, st1)
    requires Token(before1) == Token(before2) || (Token(before1) == "" && !Protected(st1))
    requires st1.quoted != (c == '"') || c != '<' ||
             (forall w | w in {"textarea", "script"} :: StartsTag(after1, w) == StartsTag(after2, w))
    ensures Dominates(Track(before2, c, after2, st2), Track(before1, c, after1, st1))
  {
    hide Count, StartsTag, Token;
    if c == '>' && st1.quoted == (c == '"') {
      CountDominates(before1, before2, "pre", st1.pre, st2.pre);
      CountDominates(before1, before2, "textarea", st1.textarea, st2.textarea);
      CountDominates(before1, before2, "script", st1.script, st2.script);
    } else if c == '<' && st1.quoted == (c == '"') {
      assert "textarea" in {"textarea", "script"} && "script" in {"textarea", "script"};
    }
  }

  /** The second run counts at least as many open elements. */
  lemma CountDominates(before1: string, before2: string, name: string, open1: nat, open2: nat)
    requires AllPlain(name) && open1 <= open2
    requires Token(before1) == Token(before2) || (Token(before1) == "" && open1 == 0)
    ensures Count(before1, name, open1) <= Count(before2, name, open2)
  {
    hide EndsWithWord;
    if Token(before1) == Token(before2) {
      CountSeesToken(before1, before2, name, open2);
      CountSeesToken(before1, before2, name, open1);
    } else {
      CountNoToken(before1, name, open1);
    }
  }

  /** At `<` both runs look ahead; they see the same word or none. */
  lemma SameLookAhead(before: string, rest: string, st: State, b: bool)
    requires !st.quoted
    ensures var tail := Run(before + ['<'], rest, "", Track(before, '<', rest, st), 0, 0, b);
            forall w | w in {"textarea", "script"} :: StartsTag(rest, w) == StartsTag(tail, w)
  {
    var st' := Track(before, '<', rest, st);
    var tail := Run(before + ['<'], rest, "", st', 0, 0, b);
    forall w | w in {"textarea", "script"} ensures StartsTag(rest, w) == StartsTag(tail, w) {
      if StartsTag(tail, w) {
        LookAheadWasThere(before + ['<'], rest, st', b, w);
      } else if StartsTag(rest, w) {
        LookAheadCopied(before + ['<'], rest, st', b, w);
      }
    }
  }

  /** The second run stays ahead over a written character. */
  lemma SecondRunDominates(
    before1: string, c: char, rest: string, st1: State, before2: string, st2: State, b: bool)
    requires Dominates(st2, st1)
    requires Token(before1) == Token(before2) || (Token(before1) == "" && !Protected(st1))
    ensures var st1' := Track(before1, c, rest, st1);
            Dominates(Track(before2, c, Run(before1 + [c], rest, "", st1', 0, 0, b), st2), st1')
  {
    if c == '<' && !st1.quoted { SameLookAhead(before1, rest, st1, b); }
    TrackDominates(before1, before2, c, rest, Run(before1 + [c], rest, "", Track(before1, c, rest, st1), 0, 0, b),
                   st1, st2);
  }

  /** The two runs side by side: the second leaves alone what the first writes. */
  lemma {:induction false} SecondRunCopies(
    before1: string, rest: string, st1: State, newlines: nat, blanks: nat, before2: string, st2: State, b: bool)
    requires Dominates(st2, st1)
    requires if newlines + blanks == 0 then Token(before1) == Token(before2)
             else Token(before1) == "" && !Protected(st1)
    ensures var out := Run(before1, rest, "", st1, newlines, blanks, b);
            Run(before2, out, "", st2, 0, 0, b) == out
    decreases |rest|
  {
    hide Track, Token, StartsTag;
    if rest == "" { return; }
    var c, rest1 := rest[0], rest[1..];
    var next1 := before1 + [c];
    TokenPush(before1, c);
    if !Protected(st1) && Newline(c) {
      SecondRunCopies(next1, rest1, st1, newlines + 1, blanks, before2, st2, b);
    } else if !Protected(st1) && Whitespace(c) {
      SecondRunCopies(next1, rest1, st1, newlines, blanks + 1, before2, st2, b);
    } else {
      assert rest1 + "" == rest1;
      var st1' := Track(before1, c, rest1, st1);
      var gap := if Protected(st1) then "" else Gap(newlines, blanks, c, b);
      var tail := Run(next1, rest1, "", st1', 0, 0, b);
      var next2 := before2 + gap;
      TokenOfGap(before2, gap, c, b);
      TokenPush(next2, c);
      SecondRunDominates(before1, c, rest1, st1, next2, st2, b);
      SecondRunCopies(next1, rest1, st1', 0, 0, next2 + [c], Track(next2, c, tail, st2), b);
      if Whitespace(c) {
        assert next2 == before2;
        CopyProtected(before2, c, tail, st2, b);
      } else {
        StepCopies(before2, gap, c, tail, st2, b);
      }
    }
  }

  lemma CopyProtected(before: string, c: char, rest: string, st: State, b: bool)
    requires Protected(st)
    ensures Run(before, [c] + rest, "", st, 0, 0, b)
         == [c] + Run(before + [c], rest, "", Track(before, c, rest, st), 0, 0, b)
  {
    assert ([c] + rest)[1..] == rest && rest + "" == rest;
  }

  lemma TokenOfGap(s: string, gap: string, c: char, b: bool)
    requires IsGap(gap, c, b)
    ensures Token(s + gap) == if gap == "" then Token(s) else ""
  {
    if gap == "" { assert s + gap == s; }
  }

  /** Cleaning cleaned text changes nothing, in plain and in beautify mode. */
  lemma CleanIsIdempotent(text: string, b: bool)
    ensures Clean(Clean(text, "", b), "", b) == Clean(text, "", b)
  {
    SecondRunCopies("", text, START, 0, 0, "", START, b);
  }

  // ---------------------------------------------------------------- what cleaning keeps

  /** The characters of `s` that are not whitespace, in order. */
  function Solid(s: string): string {
    if s == "" then ""
    else if Whitespace(s[0]) then Solid(s[1..])
    else [s[0]] + Solid(s[1..])
  }

  lemma SolidHead(c: char, s: string)
    ensures Solid([c] + s) == if Whitespace(c) then Solid(s) else [c] + Solid(s)
  {
    assert ([c] + s)[1..] == s;
  }

  lemma {:induction false} SolidConcat(s: string, t: string)
    ensures Solid(s + t) == Solid(s) + Solid(t)
  {
    if s == "" {
      assert s + t == t;
    } else {
      SolidConcat(s[1..], t);
      SolidPush(s[0], s[1..], t);
      assert [s[0]] + s[1..] == s;
    }
  }

  lemma SolidPush(c: char, s: string, t: string)
    requires Solid(s + t) == Solid(s) + Solid(t)
    ensures Solid([c] + s + t) == Solid([c] + s) + Solid(t)
  {
    hide Solid, Whitespace;
    assert [c] + s + t == [c] + (s + t);
    SolidHead(c, s + t);
    SolidHead(c, s);
    assert [c] + (Solid(s) + Solid(t)) == [c] + Solid(s) + Solid(t);
  }

  lemma SolidEmitted(gap: string, c: char, tail: string, b: bool)
    requires !Whitespace(c) && IsGap(gap, c, b)
    ensures Solid(gap + [c] + tail) == [c] + Solid(tail)
  {
    SolidConcat(gap + [c], tail);
    SolidConcat(gap, [c]);
    assert gap != "" ==> gap[1..] == "" || gap[1..] == "\n";
  }

  lemma {:induction false} RunKeepsSolid(
    before: string, rest: string, beyond: string, st: State, newlines: nat, blanks: nat, b: bool)
    ensures Solid(Run(before, rest, beyond, st, newlines, blanks, b)) == Solid(rest)
    decreases |rest|
  {
    if rest != "" {
      var c, rest1 := rest[0], rest[1..];
      var st' := Track(before, c, rest1 + beyond, st);
      if Protected(st) {
        RunKeepsSolid(before + [c], rest1, beyond, st', newlines, blanks, b);
        SolidConcat([c], Run(before + [c], rest1, beyond, st', newlines, blanks, b));
      } else if Newline(c) {
        RunKeepsSolid(before + [c], rest1, beyond, st, newlines + 1, blanks, b);
      } else if Whitespace(c) {
        RunKeepsSolid(before + [c], rest1, beyond, st, newlines, blanks + 1, b);
      } else {
        RunKeepsSolid(before + [c], rest1, beyond, st', 0, 0, b);
        SolidEmitted(Gap(newlines, blanks, c, b), c, Run(before + [c], rest1, beyond, st', 0, 0, b), b);
      }
    }
  }

  lemma {:induction false} RunIsNoLonger(
    before: string, rest: string, beyond: string, st: State, newlines: nat, blanks: nat, b: bool)
    ensures |Run(before, rest, beyond, st, newlines, blanks, b)| <= |rest| + newlines + blanks
    decreases |rest|
  {
    if rest != "" {
      var c, rest1 := rest[0], rest[1..];
      var st' := Track(before, c, rest1 + beyond, st);
      if Protected(st) {
        RunIsNoLonger(before + [c], rest1, beyond, st', newlines, blanks, b);
      } else if Newline(c) {
        RunIsNoLonger(before + [c], rest1, beyond, st, newlines + 1, blanks, b);
      } else if Whitespace(c) {
        RunIsNoLonger(before + [c], rest1, beyond, st, newlines, blanks + 1, b);
      } else {
        RunIsNoLonger(before + [c], rest1, beyond, st', 0, 0, b);
      }
    }
  }

  /** Every character that is not whitespace is kept, in order, and the text never grows. */
  lemma CleanKeepsText(text: string, beyond: string, b: bool)
    ensures Solid(Clean(text, beyond, b)) == Solid(text) && |Clean(text, beyond, b)| <= |text|
  {
    RunKeepsSolid("", text, beyond, START, 0, 0, b);
    RunIsNoLonger("", text, beyond, START, 0, 0, b);
  }

  /** The state after the scanner has consumed `text`. */
  function StateAfter(before: string, text: string, after: string, st: State): State
    decreases |text|
  {
    if text == "" then st
    else StateAfter(before + [text[0]], text[1..], after, Track(before, text[0], text[1..] + after, st))
  }

  /** The scanner is inside a quoted string or a protected element at every character of `text`. */
  predicate ProtectedThrough(before: string, text: string, after: string, st: State)
    decreases |text|
  {
    text == "" ||
    (Protected(st) &&
     ProtectedThrough(before + [text[0]], text[1..], after, Track(before, text[0], text[1..] + after, st)))
  }

  /** Text that stays inside a string, `<pre>`, `<textarea>` or `<script>` is copied as it is,
      and no pending whitespace is carried across it. */
  lemma {:induction false} ProtectedTextIsVerbatim(
    before: string, text: string, rest: string, beyond: string, st: State, newlines: nat, blanks: nat, b: bool)
    requires ProtectedThrough(before, text, rest + beyond, st)
    ensures Run(before, text + rest, beyond, st, newlines, blanks, b)
         == text + Run(before + text, rest, beyond, StateAfter(before, text, rest + beyond, st), newlines, blanks, b)
    decreases |text|
  {
    if text == "" {
      assert text + rest == rest && before + text == before;
    } else {
      var c, text1 := text[0], text[1..];
      assert (text + rest)[1..] == text1 + rest && text1 + (rest + beyond) == text1 + rest + beyond;
      assert before + [c] + text1 == before + text;
      ProtectedTextIsVerbatim(before + [c], text1, rest, beyond, Track(before, c, text1 + (rest + beyond), st),
                              newlines, blanks, b);
    }
  }

  // ---------------------------------------------------------------- the look-ahead past the region

  /** An unfinished tag name at the end of the region is copied in any state. */
  lemma {:induction false} LettersCopied(
    before: string, rest: string, beyond: string, st: State, newlines: nat, blanks: nat, b: bool)
    requires newlines + blanks == 0 || Protected(st)
    requires forall k :: 0 <= k < |rest| ==> 'a' <= Lower(rest[k]) <= 'z'
    ensures Run(before, rest, beyond, st, newlines, blanks, b) == rest
    decreases |rest|
  {
    if rest != "" {
      LettersCopied(before + [rest[0]], rest[1..], beyond, st, newlines, blanks, b);
    }
  }

  /** A look-ahead that depends on the text past the region sees only letters before its end. */
  lemma LookAheadPastEnd(rest: string, beyond1: string, beyond2: string, w: string)
    requires AllLetters(w) && StartsTag(rest + beyond1, w) && !StartsTag(rest + beyond2, w)
    ensures forall k :: 0 <= k < |rest| ==> 'a' <= Lower(rest[k]) <= 'z'
  {
    var s1, s2 := rest + beyond1, rest + beyond2;
    forall k | 0 <= k < |rest| ensures 'a' <= Lower(rest[k]) <= 'z' {
      assert k < |w| ==> Lower(s1[0 + k]) == w[k];
    }
  }

  lemma {:induction false} BeyondIsIgnored(
    before: string, rest: string, beyond1: string, beyond2: string, st: State, newlines: nat, blanks: nat, b: bool)
    ensures Run(before, rest, beyond1, st, newlines, blanks, b) == Run(before, rest, beyond2, st, newlines, blanks, b)
    decreases |rest|
  {
    if rest == "" { return; }
    var c, rest1 := rest[0], rest[1..];
    var st1, st2 := Track(before, c, rest1 + beyond1, st), Track(before, c, rest1 + beyond2, st);
    if !Protected(st) && Newline(c) {
      BeyondIsIgnored(before + [c], rest1, beyond1, beyond2, st, newlines + 1, blanks, b);
    } else if !Protected(st) && Whitespace(c) {
      BeyondIsIgnored(before + [c], rest1, beyond1, beyond2, st, newlines, blanks + 1, b);
    } else {
      var nl, bl := if Protected(st) then newlines else 0, if Protected(st) then blanks else 0;
      if st1 == st2 {
        BeyondIsIgnored(before + [c], rest1, beyond1, beyond2, st1, nl, bl, b);
      } else {
        TrackedApart(before, c, rest1, beyond1, beyond2, st, nl, bl, b);
      }
    }
  }

  /** Where what is past the region makes a difference to the state, only letters are left to copy. */
  lemma TrackedApart(before: string, c: char, rest: string, beyond1: string, beyond2: string, st: State,
                     newlines: nat, blanks: nat, b: bool)
    requires newlines + blanks == 0 || Protected(st)
    requires Track(before, c, rest + beyond1, st) != Track(before, c, rest + beyond2, st)
    ensures forall st', beyond | st' in {Track(before, c, rest + beyond1, st), Track(before, c, rest + beyond2, st)}
                                 && beyond in {beyond1, beyond2} ::
              Run(before + [c], rest, beyond, st', newlines, blanks, b) == rest
  {
    hide Run;
    var st1, st2 := Track(before, c, rest + beyond1, st), Track(before, c, rest + beyond2, st);
    var w :| w in {"textarea", "script"} && StartsTag(rest + beyond1, w) != StartsTag(rest + beyond2, w);
    if StartsTag(rest + beyond1, w) {
      LookAheadPastEnd(rest, beyond1, beyond2, w);
    } else {
      LookAheadPastEnd(rest, beyond2, beyond1, w);
    }
    forall st', beyond | st' in {st1, st2} && beyond in {beyond1, beyond2}
      ensures Run(before + [c], rest, beyond, st', newlines, blanks, b) == rest
    {
      LettersCopied(before + [c], rest, beyond, st', newlines, blanks, b);
    }
  }

  /** The scanner looks up to nine characters past the region it cleans, but what it finds
      there never changes what it writes. */
  lemma CleanIgnoresBeyond(text: string, beyond1: string, beyond2: string, b: bool)
    ensures Clean(text, beyond1, b) == Clean(text, beyond2, b)
  {
    BeyondIsIgnored("", text, beyond1, beyond2, START, 0, 0, b);
  }

  /** Cleaning the start of a page again, with the same page text after it, changes nothing. */
  lemma CleanPageStartIsIdempotent(text: string, beyond: string, b: bool)
    ensures Clean(Clean(text, beyond, b), beyond, b) == Clean(text, beyond, b)
  {
    CleanIgnoresBeyond(text, beyond, "", b);
    CleanIgnoresBeyond(Clean(text, "", b), beyond, "", b);
    CleanIsIdempotent(text, b);
  }

  // ---------------------------------------------------------------- the scanning loop

  lemma WordAtHead(s: string, i: int, c: char, w: string)
    ensures WordAt(s, i, [c] + w) <==> WordAt(s, i + 1, w) && 0 <= i && Lower(s[i]) == c
  {
    var cw := [c] + w;
    if WordAt(s, i, cw) {
      assert Lower(s[i + 0]) == cw[0];
      forall k | 0 <= k < |w| ensures Lower(s[i + 1 + k]) == w[k] {
        assert Lower(s[i + (k + 1)]) == cw[k + 1];
      }
    }
  }

  lemma EndsWithIs(s: string, n: nat, w: string)
    requires n <= |s|
    ensures EndsWithWord(s[..n], w) <==> WordAt(s, n - |w|, w)
  {
  }

  /** The look-behind at `>`, as the indices of the C code see it. */
  lemma LookBehindIs(str: string, src: nat, name: string, open: nat)
    requires src < |str|
    ensures var n := |name|;
            Count(str[..src], name, open) ==
            if src > n && WordAt(str, src - n, name) then
              if str[src - n - 1] == '<' then open + 1
              else if open != 0 && src > n + 1 && str[src - n - 1] == '/' && str[src - n - 2] == '<' then open - 1
              else open
            else open
  {
    hide WordAt;
    var i := src - |name| - 1;
    EndsWithIs(str, src, "<" + name);
    EndsWithIs(str, src, "</" + name);
    WordAtHead(str, i, '<', name);
    WordAtHead(str, i, '/', name);
    WordAtHead(str, i - 1, '<', "/" + name);
    assert "</" + name == ['<'] + ("/" + name);
  }

  /** The look-ahead at `<`, as the indices of the C code see it. */
  lemma LookAheadIs(str: string, src: nat, w: string)
    requires src < |str|
    ensures StartsTag(str[src + 1..], w) <==> WordAt(str, src + 1, w) && Whitespace(At(str, src + 1 + |w|))
  {
    var s := str[src + 1..];
    if WordAt(s, 0, w) {
      forall k | 0 <= k < |w| ensures Lower(str[src + 1 + k]) == w[k] {
        assert Lower(s[0 + k]) == w[k];
      }
    }
    if WordAt(str, src + 1, w) {
      forall k | 0 <= k < |w| ensures Lower(s[0 + k]) == w[k] {
        assert Lower(str[src + 1 + k]) == w[k];
      }
    }
  }

  /** What remains to be written when the scanner stands at `src`. */
  function RunFrom(str: string, src: nat, len: nat, st: State, newlines: nat, blanks: nat, b: bool): string
    requires src <= len <= |str|
  {
    Run(str[..src], str[src..len], str[len..], st, newlines, blanks, b)
  }

  lemma RunFromStep(str: string, src: nat, len: nat, st: State, newlines: nat, blanks: nat, b: bool)
    requires src < len <= |str|
    ensures var c, st' := str[src], Track(str[..src], str[src], str[src + 1..], st);
            RunFrom(str, src, len, st, newlines, blanks, b) ==
            if Protected(st) then [c] + RunFrom(str, src + 1, len, st', newlines, blanks, b)
            else if Newline(c) then RunFrom(str, src + 1, len, st', newlines + 1, blanks, b)
            else if Whitespace(c) then RunFrom(str, src + 1, len, st', newlines, blanks + 1, b)
            else Gap(newlines, blanks, c, b) + [c] + RunFrom(str, src + 1, len, st', 0, 0, b)
  {
    assert str[src + 1..len] + str[len..] == str[src + 1..];
    assert str[src..len][1..] == str[src + 1..len] && str[..src] + [str[src]] == str[..src + 1];
  }

  lemma RunFromEnds(str: string, len: nat, st: State, newlines: nat, blanks: nat, b: bool)
    requires len <= |str|
    ensures RunFrom(str, 0, len, START, 0, 0, b) == Clean(str[..len], str[len..], b)
    ensures RunFrom(str, len, len, st, newlines, blanks, b) == ""
  {
    assert str[0..len] == str[..len] && str[..0] == "";
  }

  /** The second half of the loop body: quotes and tags. `str[src - 5]` is read without a bound
      of its own; the caller's `inPre != 0 ==> src > 4` is what keeps it inside the string. */
  method TrackTags(str: string, src: nat, quoted: bool, inPre: nat, inTextarea: nat, inScript: nat)
    returns (quoted': bool, inPre': nat, inTextarea': nat, inScript': nat)
    requires src < |str| && (inPre != 0 ==> src > 4)
    ensures State(quoted', inPre', inTextarea', inScript')
         == Track(str[..src], str[src], str[src + 1..], State(quoted, inPre, inTextarea, inScript))
    ensures inPre' != 0 ==> src + 1 > 4
  {
    LookAheadIs(str, src, "textarea");
    LookAheadIs(str, src, "script");
    LookBehindIs(str, src, "pre", inPre);
    LookBehindIs(str, src, "textarea", inTextarea);
    LookBehindIs(str, src, "script", inScript);
    quoted', inPre', inTextarea', inScript' := quoted, inPre, inTextarea, inScript;
    if str[src] == '"' {
      quoted' := !quoted;
    }
    if !quoted' {
      if str[src] == '<' {
        if WordAt(str, src + 1, "textarea") && Whitespace(At(str, src + 9)) {
          inTextarea' := inTextarea + 1;
        } else if WordAt(str, src + 1, "script") && Whitespace(At(str, src + 7)) {
          inScript' := inScript + 1;
        }
      } else if str[src] == '>' {
        if src > 3 {
          if WordAt(str, src - 3, "pre") {
            if str[src - 4] == '<' {
              inPre' := inPre + 1;
            } else if inPre != 0 && str[src - 4] == '/' && str[src - 5] == '<' {
              inPre' := inPre - 1;
            }
          }
          if src > 6 {
            if WordAt(str, src - 6, "script") {
              if str[src - 7] == '<' {
                inScript' := inScript + 1;
              } else if inScript != 0 && str[src - 7] == '/' && src > 7 && str[src - 8] == '<' {
                inScript' := inScript - 1;
              }
            }
          }
          if src > 8 {
            if WordAt(str, src - 8, "textarea") {
              if str[src - 9] == '<' {
                inTextarea' := inTextarea + 1;
              } else if inTextarea != 0 && str[src - 9] == '/' && src > 9 && str[src - 10] == '<' {
                inTextarea' := inTextarea - 1;
              }
            }
          }
        }
      }
    }
  }

  /** The first half of the loop body: what is written for the character at `src`. */
  method WriteCharacter(result: array<char>, at: nat, c: char, isProtected: bool, newlines: nat, accum: nat,
                        beautify: bool)
    returns (dst: nat, newlines': nat, accum': nat)
    requires at + newlines + accum < result.Length
    modifies result
    ensures at <= dst && dst + newlines' + accum' <= at + newlines + accum + 1
    ensures !isProtected && Newline(c) ==>
              result[..dst] == old(result[..at]) && newlines' == newlines + 1 && accum' == accum
    ensures !isProtected && Whitespace(c) && !Newline(c) ==>
              result[..dst] == old(result[..at]) && newlines' == newlines && accum' == accum + 1
    ensures !isProtected && !Whitespace(c) ==>
              result[..dst] == old(result[..at]) + Gap(newlines, accum, c, beautify) + [c] && newlines' == accum' == 0
    ensures isProtected ==> result[..dst] == old(result[..at]) + [c] && newlines' == newlines && accum' == accum
  {
    dst, newlines', accum' := at, newlines, accum;
    if !isProtected {
      if Newline(c) {
        newlines' := newlines + 1;
      } else if Whitespace(c) {
        accum' := accum + 1;
      } else {
        if newlines != 0 {
          if c != '>' {
            result[dst] := '\n';
            dst := dst + 1;
            if beautify && newlines > 1 {
              result[dst] := '\n';
              dst := dst + 1;
            }
          }
          newlines', accum' := 0, 0;
        } else if accum != 0 {
          accum' := 0;
          if c != '>' {
            result[dst] := ' ';
            dst := dst + 1;
          }
        }
        assert result[..dst] == old(result[..at]) + Gap(newlines, accum, c, beautify);
        result[dst] := c;
        dst := dst + 1;
      }
    } else {
      result[dst] := c;
      dst := dst + 1;
    }
  }

  /** The loop body: what is written and what is still to be written stay the same text. */
  method CleanCharacter(str: string, src: nat, len: nat, result: array<char>, at: nat, quoted: bool, inPre: nat,
                        inTextarea: nat, inScript: nat, newlines: nat, accum: nat, beautify: bool)
    returns (dst: nat, quoted': bool, inPre': nat, inTextarea': nat, inScript': nat, newlines': nat, accum': nat)
    requires src < len <= |str| && at + newlines + accum <= src && result.Length == len + 1 && (inPre != 0 ==> src > 4)
    modifies result
    ensures dst + newlines' + accum' <= src + 1 && (inPre' != 0 ==> src + 1 > 4)
    ensures var st, st' := State(quoted, inPre, inTextarea, inScript), State(quoted', inPre', inTextarea', inScript');
            result[..dst] + RunFrom(str, src + 1, len, st', newlines', accum', beautify)
            == old(result[..at]) + RunFrom(str, src, len, st, newlines, accum, beautify)
  {
    hide RunFrom, Track, Gap, Whitespace, Newline;
    ghost var written, st := result[..at], State(quoted, inPre, inTextarea, inScript);
    ghost var c := str[src];
    RunFromStep(str, src, len, st, newlines, accum, beautify);
    var isProtected := quoted || inPre != 0 || inTextarea != 0 || inScript != 0;
    dst, newlines', accum' := WriteCharacter(result, at, str[src], isProtected, newlines, accum, beautify);
    quoted', inPre', inTextarea', inScript' := TrackTags(str, src, quoted, inPre, inTextarea, inScript);
    ghost var st' := State(quoted', inPre', inTextarea', inScript');
    ghost var rest := RunFrom(str, src + 1, len, st', newlines', accum', beautify);
    NewlineIsWhitespace(c);
    Slices.Regroup(written, [c], rest);
    Slices.Regroup(written, Gap(newlines, accum, c, beautify) + [c], rest);
    assert written + (Gap(newlines, accum, c, beautify) + [c]) == written + Gap(newlines, accum, c, beautify) + [c];
  }

  lemma NewlineIsWhitespace(c: char)
    ensures Newline(c) ==> Whitespace(c)
  {
  }

  /** `cleanup_html_whitespace`: cleans the first `len` characters of `str` into a new buffer of
      `len + 1` characters. */
  method CleanupHtmlWhitespace(str: string, len: nat, beautify: bool) returns (result: array<char>, dst: nat)
    requires len <= |str|
    ensures dst <= len && result.Length == len + 1 && result[dst] == '\0'
    ensures result[..dst] == Clean(str[..len], str[len..], beautify)
  {
    hide Run, RunFrom, Clean, Track, Gap;
    result := new char[1 + len];
    var src, quoted, inPre, inTextarea, inScript, accum, newlines := 0, false, 0, 0, 0, 0, 0;
    dst := 0;
    RunFromEnds(str, len, START, 0, 0, beautify);
    assert result[..0] == "";
    while src < len
      invariant src <= len && dst + accum + newlines <= src
      invariant inPre != 0 ==> src > 4
      invariant Clean(str[..len], str[len..], beautify) == result[..dst]
        + RunFrom(str, src, len, State(quoted, inPre, inTextarea, inScript), newlines, accum, beautify)
    {
      dst, quoted, inPre, inTextarea, inScript, newlines, accum :=
        CleanCharacter(str, src, len, result, dst, quoted, inPre, inTextarea, inScript, newlines, accum, beautify);
      src := src + 1;
    }
    RunFromEnds(str, len, State(quoted, inPre, inTextarea, inScript), newlines, accum, beautify);
    result[dst] := '\0';
  }
}

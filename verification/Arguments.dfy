/** Quoting values and reading expressions (libmhtml/parser.c). */
module Arguments {
  import opened Options
  import opened CText
  import opened Slices

  // ---------------------------------------------------------------- quoting

  function EscapeChar(c: char): string {
    if c == '"' || c == '\\' then ['\\', c] else [c]
  }

  function Escape(v: string): string {
    if v == "" then "" else EscapeChar(v[0]) + Escape(v[1..])
  }

  function Quote(v: string): string {
    "\"" + Escape(v) + "\""
  }

  lemma EscapeFrom(v: string, j: nat)
    requires j <= |v|
    ensures Escape(v[j..]) == if j == |v| then "" else EscapeChar(v[j]) + Escape(v[j + 1..])
  {
    if j < |v| { assert v[j..][1..] == v[j + 1..]; }
  }

  /** `buffer[end++] = c`. */
  method Push(buffer: array<char>, end: nat, c: char) returns (end': nat)
    requires end < buffer.Length
    modifies buffer
    ensures end' == end + 1 && buffer[..end'] == old(buffer[..end]) + [c]
  {
    buffer[end] := c;
    end' := end + 1;
  }

  /** The escaping step of `quote_for_setvar`. */
  method PushEscaped(buffer: array<char>, end: nat, c: char) returns (end': nat)
    requires end + 1 < buffer.Length
    modifies buffer
    ensures end < end' <= end + 2 && buffer[..end'] == old(buffer[..end]) + EscapeChar(c)
  {
    end' := end;
    if c == '"' || c == '\\' {
      end' := Push(buffer, end', '\\');
    }
    end' := Push(buffer, end', c);
  }

  lemma QuoteIs(v: string)
    ensures Quote(v) == ("" + ['"']) + (Escape(v) + "\"")
  {
    Regroup("\"", Escape(v), "\"");
  }

  /** `quote_for_setvar`, with the space it allots. */
  method QuoteForSetvar(value: string) returns (setval: array<char>, k: nat)
    ensures k < setval.Length && setval[..k] == Quote(value) && setval[k] == '\0'
  {
    hide Escape, EscapeChar, Quote;
    setval := new char[2 * |value| + 4];
    assert setval[..0] == "" && value[0..] == value;
    QuoteIs(value);
    k := Push(setval, 0, '"');
    var j := 0;
    while j < |value|
      invariant 0 <= j <= |value| && 1 <= k <= 2 * j + 1
      invariant Quote(value) == setval[..k] + (Escape(value[j..]) + "\"")
    {
      EscapeFrom(value, j);
      Regroup(setval[..k], EscapeChar(value[j]), Escape(value[j + 1..]) + "\"");
      Regroup(EscapeChar(value[j]), Escape(value[j + 1..]), "\"");
      k := PushEscaped(setval, k, value[j]);
      j := j + 1;
    }
    EscapeFrom(value, j);
    k := Push(setval, k, '"');
    setval[k] := '\0';
  }

  // ---------------------------------------------------------------- reading

  /** What a backslash makes of the character after it, outside brackets. */
  function Unescape(c: char): char {
    match c
    case 'n' => '\n'
    case 't' => '\t'
    case 'r' => '\r'
    case 'f' => 12 as char
    case _ => c
  }

  /** The scanner: its offset, the text gathered, whether it is inside double quotes, how deep
      in brackets, whether it has seen a quote outside brackets, and whether the text was cut off
      just after a backslash. */
  datatype Reader = Reader(i: nat, text: string, quoted: bool, depth: int, quotes: bool, cut: bool)

  datatype Progress = Stop(r: Reader) | Go(r: Reader)

  /** One turn of the loop of `read_sexp_1`. */
  function Turn(b: Brackets, s: string, r: Reader, stopAtEquals: bool, oneList: bool): (p: Progress)
    ensures p.Go? ==> r.i < |s| && r.i < p.r.i
  {
    var orig := At(s, r.i);
    var c := if orig == b.right then '>' else if orig == b.left then '<' else orig;
    var outside := !r.quoted && r.depth <= 0;
    var next := r.(i := r.i + 1);
    if orig == '\0' then Stop(r)
    else if c == '\\' then
      var c2 := At(s, r.i + 1);
      if c2 == '\0' then Stop(r.(i := r.i + 2, cut := true))
      else Go(r.(i := r.i + 2, text := r.text + if r.depth == 0 then [Unescape(c2)] else ['\\', c2]))
    else if c == '<' then
      Go(next.(text := r.text + [orig], depth := if r.quoted then r.depth else r.depth + 1))
    else if c == '>' then
      var done := next.(text := r.text + [orig], depth := if r.quoted then r.depth else r.depth - 1);
      if !r.quoted && oneList && done.depth == 0 then Stop(done) else Go(done)
    else if c == '"' then
      Go(next.(quoted := !r.quoted, text := if r.depth != 0 then r.text + ['"'] else r.text,
               quotes := r.quotes || r.depth == 0))
    else if c == '\r' then
      if At(s, r.i + 1) == '\n' && outside then Stop(r.(i := r.i + 2)) else Go(next)
    else if c == ';' && CommentAt(s, r.i) && !r.quoted then Go(r.(i := LineEnd(s, r.i + 3)))
    else if (c == ' ' || c == '\t' || c == '\n') && outside then Stop(next)
    else if c == '=' && stopAtEquals && outside then Stop(r)
    else Go(next.(text := r.text + [c]))
  }

  /** The reader when the loop is done. */
  function Scan(b: Brackets, s: string, r: Reader, stopAtEquals: bool, oneList: bool): Reader
    decreases |s| - r.i
  {
    match Turn(b, s, r, stopAtEquals, oneList)
    case Stop(r') => r'
    case Go(r') => Scan(b, s, r', stopAtEquals, oneList)
  }

  function Start(i: nat): Reader {
    Reader(i, "", false, 0, false, false)
  }

  /** The reader after `read_sexp_1` at `start`. */
  function ReaderAfter(b: Brackets, s: string, start: nat, stopAtEquals: bool, oneList: bool): Reader {
    Scan(b, s, Start(SkipBlanks(s, start)), stopAtEquals, oneList)
  }

  /** `read_sexp_1`: the expression at `start`, if there is one, and the offset after it. */
  function ReadSexp(b: Brackets, s: string, start: nat, stopAtEquals: bool, oneList: bool): (Option<string>, nat) {
    var r := ReaderAfter(b, s, start, stopAtEquals, oneList);
    (if r.text != "" || r.quotes then Some(r.text) else None, r.i)
  }

  predicate CString(s: string) {
    forall k :: 0 <= k < |s| ==> s[k] != '\0'
  }

  lemma ScanTurn(b: Brackets, s: string, r: Reader, stopAtEquals: bool, oneList: bool)
    ensures Scan(b, s, r, stopAtEquals, oneList) ==
            match Turn(b, s, r, stopAtEquals, oneList)
            case Stop(r') => r'
            case Go(r') => Scan(b, s, r', stopAtEquals, oneList)
  {
  }

  /** The backslash just before `start`: the character it hides, or the end of the text. */
  method ReadBackslash(s: string, workspace: array<char>, start: nat, windex: nat, depth: int)
    returns (windex': nat, cut: bool)
    requires CString(s) && windex < start <= |s| && |s| + 1 < workspace.Length
    modifies workspace
    ensures cut == (start == |s|) && windex' <= start + 1
    ensures workspace[..windex'] == old(workspace[..windex]) +
              if cut then "" else if depth == 0 then [Unescape(s[start])] else ['\\', s[start]]
    ensures cut ==> workspace[windex'] == '\\'
  {
    ghost var text := workspace[..windex];
    cut, windex' := start == |s|, windex;
    if cut {
      workspace[windex] := '\\';
      assert workspace[..windex] == text + "";
    } else if depth == 0 {
      windex' := Push(workspace, windex, Unescape(s[start]));
    } else {
      windex' := Push(workspace, windex, '\\');
      windex' := Push(workspace, windex', s[start]);
      assert workspace[..windex'] == text + ['\\', s[start]];
    }
  }

  /** The body of the loop of `read_sexp_1`: reads one character and adds to the workspace. */
  method ReadTurn(b: Brackets, s: string, workspace: array<char>, start: nat, windex: nat, quoted: bool, depth: int,
                  quotes: bool, stopAtEquals: bool, oneList: bool)
    returns (gobbled: bool, i: nat, windex': nat, quoted': bool, depth': int, quotes': bool, cut: bool)
    requires CString(s) && windex <= start <= |s| && |s| + 1 < workspace.Length
    modifies workspace
    ensures var p := Turn(b, s, Reader(start, old(workspace[..windex]), quoted, depth, quotes, false),
                       stopAtEquals, oneList);
            && windex' <= i && (if cut then i == |s| + 1 && windex' <= |s| else i <= |s|)
            && gobbled == p.Stop? && p.r == Reader(i, workspace[..windex'], quoted', depth', quotes', cut)
    ensures cut ==> gobbled && workspace[windex'] == '\\'
  {
    hide LineEnd, Unescape;
    windex', quoted', depth', quotes', gobbled, cut := windex, quoted, depth, quotes, false, false;
    i := start;
    var origC := At(s, i);
    var c := if origC == b.right then '>' else if origC == b.left then '<' else origC;
    i := i + 1;
    if origC == '\0' {
      gobbled := true;
      i := i - 1;
    } else if c == '\\' {
      windex', cut := ReadBackslash(s, workspace, i, windex, depth);
      gobbled := cut;
      i := i + 1;
    } else if c == '<' || c == '>' {
      windex' := Push(workspace, windex, origC);
      if !quoted {
        depth' := if c == '<' then depth + 1 else depth - 1;
        gobbled := c == '>' && oneList && depth' == 0;
      }
    } else if c == '"' {
      quoted' := !quoted;
      if depth != 0 {
        windex' := Push(workspace, windex, '"');
      } else {
        quotes' := true;
      }
    } else if c == '\r' {
      if At(s, i) == '\n' && !quoted && depth <= 0 {
        i := i + 1;
        gobbled := true;
      }
    } else if c == ';' && At(s, i) == ';' && At(s, i + 1) == ';' && !quoted {
      i := ToLineEnd(s, i + 2);
    } else if (c == ' ' || c == '\t' || c == '\n') && !quoted && depth <= 0 {
      gobbled := true;
    } else if c == '=' && stopAtEquals && !quoted && depth <= 0 {
      gobbled := true;
      i := i - 1;
    } else {
      windex' := Push(workspace, windex, c);
    }
  }

  /** `read_sexp_1`. The workspace it allots is large enough for whatever is gathered. When the text is
      cut off just after a backslash, the answer goes on with what the workspace happened to hold. */
  method ReadSexp1(b: Brackets, s: string, start: nat, stopAtEquals: bool, oneList: bool)
    returns (result: Option<string>, next: nat)
    requires CString(s) && start <= |s|
    ensures var r := ReaderAfter(b, s, start, stopAtEquals, oneList);
            if !r.cut then (result, next) == ReadSexp(b, s, start, stopAtEquals, oneList) && next <= |s|
            else
              && next == |s| + 1 && (result.Some? <==> r.text != "" || r.quotes)
              && (result.Some? ==> r.text + "\\" <= result.value)
  {
    hide Scan, Turn;
    var workspace := new char[10 + |s|];
    var i := start;
    while i < |s| && Whitespace(s[i])
      invariant start <= i <= |s| && SkipBlanks(s, start) == SkipBlanks(s, i)
    {
      i := i + 1;
    }
    var windex, gobbled, quoted, depth, quotes, cut := 0, false, false, 0, false, false;
    ghost var want := Scan(b, s, Start(i), stopAtEquals, oneList);
    assert workspace[..0] == "";
    while !gobbled
      invariant 0 <= windex <= i && if cut then i == |s| + 1 && windex <= |s| && workspace[windex] == '\\' else i <= |s|
      invariant cut ==> gobbled
      invariant var r := Reader(i, workspace[..windex], quoted, depth, quotes, cut);
                want == if gobbled then r else Scan(b, s, r, stopAtEquals, oneList)
      decreases if gobbled then 0 else 1, |s| - i
    {
      ScanTurn(b, s, Reader(i, workspace[..windex], quoted, depth, quotes, cut), stopAtEquals, oneList);
      gobbled, i, windex, quoted, depth, quotes, cut :=
        ReadTurn(b, s, workspace, i, windex, quoted, depth, quotes, stopAtEquals, oneList);
    }
    next := i;
    result := None;
    if windex != 0 || quotes {
      var end := windex;
      if cut {
        end := windex + 1;
        while end < workspace.Length && workspace[end] != '\0'
          invariant windex < end <= workspace.Length
        {
          end := end + 1;
        }
        assert workspace[..end][..windex + 1] == workspace[..windex] + "\\";
      }
      result := Some(workspace[..end]);
    }
  }

  // ---------------------------------------------------------------- quote, then read

  /** `v` without its carriage returns. */
  function DropReturns(v: string): string {
    if v == "" then ""
    else if v[0] == '\r' then DropReturns(v[1..])
    else [v[0]] + DropReturns(v[1..])
  }

  lemma {:induction false} DropReturnsIs(v: string)
    ensures |DropReturns(v)| <= |v| && (DropReturns(v) == v <==> '\r' !in v)
  {
    if v != "" {
      DropReturnsIs(v[1..]);
      assert v == [v[0]] + v[1..];
      if DropReturns(v) == v { assert DropReturns(v)[1..] == v[1..]; }
    }
  }

  lemma TurnInQuotes(b: Brackets, s: string, r: Reader, c: char, stop: bool, one: bool)
    requires Sane(b) && r.quoted && r.depth == 0 && c != '\0' && Holds(s, r.i, EscapeChar(c))
    ensures Turn(b, s, r, stop, one) == Go(r.(i := r.i + |EscapeChar(c)|, text := r.text + DropReturns([c])))
  {
    var e := EscapeChar(c);
    assert s[r.i] == e[0] && (|e| == 2 ==> s[r.i + 1] == e[1]);
    assert r.text + "" == r.text;
  }

  lemma HeadOf(v: string)
    requires v != ""
    ensures Escape(v) == EscapeChar(v[0]) + Escape(v[1..])
    ensures DropReturns(v) == DropReturns([v[0]]) + DropReturns(v[1..])
  {
    hide EscapeChar;
    assert [v[0]][1..] == "";
    assert DropReturns([v[0]]) == if v[0] == '\r' then "" else [v[0]];
  }

  /** Inside quotes every escaped character is gathered as it was, save carriage returns. */
  lemma {:induction false} ScanInQuotes(b: Brackets, s: string, r: Reader, v: string, stop: bool, one: bool)
    requires Sane(b) && CString(v) && r.quoted && r.depth == 0 && Holds(s, r.i, Escape(v))
    ensures Scan(b, s, r, stop, one)
         == Scan(b, s, r.(i := r.i + |Escape(v)|, text := r.text + DropReturns(v)), stop, one)
    decreases |v|
  {
    hide Scan, Turn, Holds, EscapeChar, Sane, Escape, DropReturns;
    if v == "" {
      NothingEscaped();
      assert r.text + "" == r.text;
    } else {
      HeadOf(v);
      HoldsParts(s, r.i, EscapeChar(v[0]), Escape(v[1..]));
      TurnInQuotes(b, s, r, v[0], stop, one);
      ScanTurn(b, s, r, stop, one);
      var r' := r.(i := r.i + |EscapeChar(v[0])|, text := r.text + DropReturns([v[0]]));
      ScanInQuotes(b, s, r', v[1..], stop, one);
      Regroup(r.text, DropReturns([v[0]]), DropReturns(v[1..]));
    }
  }

  lemma NothingEscaped()
    ensures Escape("") == "" && DropReturns("") == ""
  {
  }

  /** What a quoted value is made of. */
  lemma QuoteParts(s: string, start: nat, v: string)
    requires Holds(s, start, Quote(v))
    ensures var end := start + |Quote(v)|;
            && end == start + |Escape(v)| + 2 <= |s| && s[start] == s[end - 1] == '"'
            && Holds(s, start + 1, Escape(v))
  {
    hide Escape, Holds;
    var close := Escape(v) + "\"";
    Regroup("\"", Escape(v), "\"");
    HoldsParts(s, start, ['"'], close);
    HoldsOne(s, start, '"');
    HoldsParts(s, start + 1, Escape(v), ['"']);
    HoldsOne(s, start + 1 + |Escape(v)|, '"');
  }

  lemma TurnAtQuote(b: Brackets, s: string, r: Reader, stop: bool, one: bool)
    requires Sane(b) && r.i < |s| && s[r.i] == '"' && r.depth == 0
    ensures Turn(b, s, r, stop, one) == Go(r.(i := r.i + 1, quoted := !r.quoted, quotes := true))
  {
  }

  /** An expression ends at the end of the text, or at a blank, which is passed over. */
  lemma TurnAtEnd(b: Brackets, s: string, r: Reader, stop: bool, one: bool)
    requires Sane(b) && !r.quoted && r.depth == 0 && (r.i == |s| || (r.i < |s| && s[r.i] in {' ', '\t', '\n'}))
    ensures Turn(b, s, r, stop, one) == Stop(if r.i == |s| then r else r.(i := r.i + 1))
  {
  }

  /** From the opening quote to the blank after the closing one. */
  lemma ScanQuoted(b: Brackets, s: string, start: nat, v: string, stop: bool, one: bool)
    requires Sane(b) && CString(v) && Holds(s, start, Quote(v))
    requires var end := start + |Quote(v)|; end == |s| || s[end] in {' ', '\t', '\n'}
    ensures var end := start + |Quote(v)|;
            Scan(b, s, Start(start), stop, one)
            == Reader(if end == |s| then end else end + 1, DropReturns(v), false, 0, true, false)
  {
    hide Scan, Turn, Escape, Quote, Holds, Sane, DropReturns, CString;
    var end := start + |Quote(v)|;
    QuoteParts(s, start, v);
    var r := Reader(start + 1, "", true, 0, true, false);
    TurnAtQuote(b, s, Start(start), stop, one);
    ScanTurn(b, s, Start(start), stop, one);
    ScanInQuotes(b, s, r, v, stop, one);
    var r' := r.(i := end - 1, text := DropReturns(v));
    assert "" + DropReturns(v) == DropReturns(v);
    TurnAtQuote(b, s, r', stop, one);
    ScanTurn(b, s, r', stop, one);
    var r'' := r'.(i := end, quoted := false);
    TurnAtEnd(b, s, r'', stop, one);
    ScanTurn(b, s, r'', stop, one);
  }

  lemma NoBlanksAt(s: string, i: nat)
    requires i < |s| ==> !Whitespace(s[i])
    ensures SkipBlanks(s, i) == i
  {
  }

  /** Quoting any value and reading it back, wherever it stands, gives the value without its
      carriage returns; the offset ends up after the value and the blank that ends it. */
  lemma ReadAfterQuote(b: Brackets, s: string, start: nat, v: string, stop: bool, one: bool)
    requires Sane(b) && CString(v) && Holds(s, start, Quote(v))
    requires var end := start + |Quote(v)|; end == |s| || s[end] in {' ', '\t', '\n'}
    ensures var end := start + |Quote(v)|;
            ReadSexp(b, s, start, stop, one) == (Some(DropReturns(v)), if end == |s| then end else end + 1)
  {
    hide Scan, Escape, Quote, Holds, Sane, SkipBlanks, DropReturns, CString;
    QuoteParts(s, start, v);
    NoBlanksAt(s, start);
    ScanQuoted(b, s, start, v, stop, one);
  }

  /** So the round trip is the identity exactly on the values without carriage returns. */
  lemma QuoteThenReadIsIdentity(b: Brackets, before: string, v: string, after: string, stop: bool, one: bool)
    requires Sane(b) && CString(v) && (after == "" || after[0] in {' ', '\t', '\n'})
    ensures ReadSexp(b, before + Quote(v) + after, |before|, stop, one).0 == Some(v) <==> '\r' !in v
  {
    var s := before + Quote(v) + after;
    ReadAfterQuote(b, s, |before|, v, stop, one);
    DropReturnsIs(v);
  }
}

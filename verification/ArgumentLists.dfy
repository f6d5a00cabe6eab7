/** Lists of arguments: printing them, and gathering them into a package (libmhtml/parser.c). */
module ArgumentLists {
  import opened Options
  import opened CText
  import opened Slices
  import opened Arguments
  import ArrayVars
  import Symbols

  datatype Arg = Arg(name: string, value: string)

  function PrintArg(a: Arg): string {
    if a.value != "" then a.name + "=" + Quote(a.value) else a.name
  }

  /** `mhtml_funargs`. */
  function Print(args: seq<Arg>): string {
    if args == [] then ""
    else if |args| == 1 then PrintArg(args[0])
    else PrintArg(args[0]) + ([' '] + Print(args[1..]))
  }

  /** The reads of `pagefunc_snarf_vars` at `offset`: a name, its value, and where they end. */
  function ReadArg(b: Brackets, s: string, offset: nat, assignments: bool): (Option<string>, Option<string>, nat) {
    var (name, afterName) := ReadSexp(b, s, offset, assignments, false);
    var o := SkipBlanks(s, afterName);
    if At(s, o) != '=' then (name, None, o)
    else if name == None then (name, None, o + 1)
    else
      var (value, afterValue) := ReadSexp(b, s, o + 1, false, false);
      (name, value, afterValue)
  }

  /** None of these reads is cut off just after a backslash. */
  predicate ArgComplete(b: Brackets, s: string, offset: nat, assignments: bool) {
    var r := ReaderAfter(b, s, offset, assignments, false);
    !r.cut &&
    var (name, afterName) := ReadSexp(b, s, offset, assignments, false);
    var o := SkipBlanks(s, afterName);
    At(s, o) == '=' && name != None ==> !ReaderAfter(b, s, o + 1, false, false).cut
  }

  lemma ScanMovesOn(b: Brackets, s: string, r: Reader, stop: bool, one: bool)
    ensures Scan(b, s, r, stop, one).i >= r.i
    decreases |s| - r.i
  {
    var p := Turn(b, s, r, stop, one);
    if p.Go? { ScanMovesOn(b, s, p.r, stop, one); }
  }

  /** Every round of `pagefunc_snarf_vars` moves on, so it ends. */
  lemma ReadArgMovesOn(b: Brackets, s: string, offset: nat, assignments: bool)
    requires CString(s) && offset < |s|
    ensures ReadArg(b, s, offset, assignments).2 > offset
  {
    hide Turn;
    var start := SkipBlanks(s, offset);
    var (_, afterName) := ReadSexp(b, s, offset, assignments, false);
    ScanMovesOn(b, s, Start(start), assignments, false);
    var o := SkipBlanks(s, afterName);
    if At(s, o) == '=' {
      ScanMovesOn(b, s, Start(SkipBlanks(s, o + 1)), false, false);
    } else if o == offset {
      FirstTurnMoves(b, s, offset, assignments);
    }
  }

  lemma FirstTurnMoves(b: Brackets, s: string, i: nat, stop: bool)
    requires CString(s) && i < |s| && s[i] != '='
    ensures Scan(b, s, Start(i), stop, false).i > i
  {
    var p := Turn(b, s, Start(i), stop, false);
    if p.Go? { ScanMovesOn(b, s, p.r, stop, false); }
  }

  /** A name, and a value if one was given, even an empty one. */
  datatype Given = Given(name: string, value: Option<string>)

  /** What is read at `offset`, if it has a name. */
  function Gathered(b: Brackets, s: string, offset: nat, assignments: bool): seq<Given> {
    var (name, value, _) := ReadArg(b, s, offset, assignments);
    if name == None then [] else [Given(name.value, value)]
  }

  /** The names and values `pagefunc_snarf_vars` reads from `offset` on. */
  function Snarf(b: Brackets, s: string, offset: nat, assignments: bool): seq<Given>
    requires CString(s)
    decreases |s| - offset
  {
    if offset >= |s| then []
    else
      ReadArgMovesOn(b, s, offset, assignments);
      Gathered(b, s, offset, assignments) + Snarf(b, s, ReadArg(b, s, offset, assignments).2, assignments)
  }

  /** No read from `offset` on is cut off just after a backslash; the source would go on reading past
      the end of the text. */
  predicate Complete(b: Brackets, s: string, offset: nat, assignments: bool)
    requires CString(s)
    decreases |s| - offset
  {
    offset < |s| ==>
      && ArgComplete(b, s, offset, assignments)
      && (ReadArgMovesOn(b, s, offset, assignments); Complete(b, s, ReadArg(b, s, offset, assignments).2, assignments))
  }

  /** No NUL inside, and no backslash at the end. */
  predicate Readable(s: string) {
    CString(s) && (s != "" ==> s[|s| - 1] != '\\')
  }

  lemma {:induction false} ScanIsNotCut(b: Brackets, s: string, r: Reader, stop: bool, one: bool)
    requires Readable(s) && !r.cut
    ensures !Scan(b, s, r, stop, one).cut
    decreases |s| - r.i
  {
    hide Scan;
    ScanTurn(b, s, r, stop, one);
    match Turn(b, s, r, stop, one)
    case Stop(_) =>
    case Go(r') => ScanIsNotCut(b, s, r', stop, one);
  }

  /** No text without a backslash at its end is cut off. */
  lemma {:induction false} ReadableIsComplete(b: Brackets, s: string, offset: nat, assignments: bool)
    requires Readable(s)
    ensures Complete(b, s, offset, assignments)
    decreases |s| - offset
  {
    hide Scan, ReadArg, SkipBlanks;
    if offset < |s| {
      ScanIsNotCut(b, s, Start(SkipBlanks(s, offset)), assignments, false);
      var o := SkipBlanks(s, ReadSexp(b, s, offset, assignments, false).1);
      ScanIsNotCut(b, s, Start(SkipBlanks(s, o + 1)), false, false);
      ReadArgMovesOn(b, s, offset, assignments);
      ReadableIsComplete(b, s, ReadArg(b, s, offset, assignments).2, assignments);
    }
  }

  /** One round of the loop of `pagefunc_snarf_vars`. */
  method ReadArgument(b: Brackets, s: string, offset: nat, assignments: bool)
    returns (name: Option<string>, value: Option<string>, next: nat)
    requires CString(s) && offset <= |s| && ArgComplete(b, s, offset, assignments)
    ensures (name, value, next) == ReadArg(b, s, offset, assignments) && next <= |s|
  {
    hide ReadSexp, ReaderAfter;
    value := None;
    name, next := ReadSexp1(b, s, offset, assignments, false);
    ghost var afterName := next;
    while next < |s| && Whitespace(s[next])
      invariant next <= |s| && SkipBlanks(s, afterName) == SkipBlanks(s, next)
    {
      next := next + 1;
    }
    if next < |s| && s[next] == '=' {
      next := next + 1;
      if name != None {
        value, next := ReadSexp1(b, s, next, false, false);
      }
    }
  }

  // ---------------------------------------------------------------- the package of arguments

  /** The values of each variable of a package, under its name as the symbol table keeps it. */
  type Package = map<string, seq<string>>

  function SymName(name: string): string {
    seq(|name|, k requires 0 <= k < |name| => Symbols.SymChar(name[k] as int) as char)
  }

  /** The two variables that hold the ordered names and values. */
  const PVARS := "*PVARS*"
  const PVALS := "*PVALS*"

  function Values(p: Package, name: string): seq<string> {
    Symbols.ValuesOf(p, SymName(name))
  }

  /** `symbol_intern_in_package`. */
  function Interned(p: Package, name: string): Package {
    p[SymName(name) := Values(p, name)]
  }

  /** `symbol_add_value`, to the symbol of that name. */
  function Added(p: Package, name: string, value: string): Package {
    Symbols.Added(p, SymName(name), value)
  }

  /** `forms_set_tag_value_in_package`: the tag may refer to a cell, or to all cells. */
  function Stored(p: Package, tag: string, value: string, numberOf: string -> int): Package {
    var r := ArrayVars.RefOf(tag, numberOf);
    var cells := Values(p, r.base);
    p[SymName(r.base) := ArrayVars.StoredAt(cells, r.index, value)]
  }

  /** Recording one argument: as a variable of its own, and in the two ordered lists. */
  function Recorded(p: Package, g: Given, numberOf: string -> int): Package {
    var p1 := if g.value.None? then Interned(p, g.name) else Stored(p, g.name, g.value.value, numberOf);
    Added(Added(p1, "*pvars*", g.name), "*pvals*", if g.value.None? then "" else g.value.value)
  }

  function RecordedAll(p: Package, gs: seq<Given>, numberOf: string -> int): Package
    decreases |gs|
  {
    if gs == [] then p else RecordedAll(Recorded(p, gs[0], numberOf), gs[1..], numberOf)
  }

  lemma SnarfStep(b: Brackets, s: string, offset: nat, assignments: bool)
    requires CString(s) && offset < |s| && Complete(b, s, offset, assignments)
    ensures ArgComplete(b, s, offset, assignments)
    ensures var next := ReadArg(b, s, offset, assignments).2;
            && next > offset && Complete(b, s, next, assignments)
            && Snarf(b, s, offset, assignments) == Gathered(b, s, offset, assignments) + Snarf(b, s, next, assignments)
  {
    hide ReadArg, ArgComplete, Gathered;
    ReadArgMovesOn(b, s, offset, assignments);
  }

  lemma SnarfEnd(b: Brackets, s: string, assignments: bool)
    requires CString(s)
    ensures Snarf(b, s, |s|, assignments) == []
  {
  }

  /** `pagefunc_snarf_vars`: the package of the arguments of `s`. */
  method SnarfVars(b: Brackets, s: string, assignments: bool, numberOf: string -> int) returns (package: Package)
    requires CString(s) && Complete(b, s, 0, assignments)
    ensures package == RecordedAll(map[], Snarf(b, s, 0, assignments), numberOf)
  {
    hide ReadArg, ArgComplete, Snarf, Complete, Recorded;
    package := map[];
    var offset := 0;
    while offset < |s|
      invariant 0 <= offset <= |s| && Complete(b, s, offset, assignments)
      invariant RecordedAll(map[], Snarf(b, s, 0, assignments), numberOf)
             == RecordedAll(package, Snarf(b, s, offset, assignments), numberOf)
    {
      SnarfStep(b, s, offset, assignments);
      var name, value, next := ReadArgument(b, s, offset, assignments);
      RecordedStep(package, Gathered(b, s, offset, assignments), Snarf(b, s, next, assignments), numberOf);
      if name != None {
        package := Recorded(package, Given(name.value, value), numberOf);
      }
      offset := next;
    }
    SnarfEnd(b, s, assignments);
  }

  lemma RecordedStep(p: Package, first: seq<Given>, rest: seq<Given>, numberOf: string -> int)
    requires |first| <= 1
    ensures RecordedAll(p, first + rest, numberOf)
         == RecordedAll(if first == [] then p else Recorded(p, first[0], numberOf), rest, numberOf)
  {
    if first == [] {
      assert first + rest == rest;
    } else {
      assert (first + rest)[1..] == rest;
    }
  }

  // ---------------------------------------------------------------- print, then snarf

  /** A name that reads as itself: no blanks, quotes, backslashes, brackets, `=` or comment. */
  predicate PlainAtom(b: Brackets, name: string) {
    && name != ""
    && forall k :: 0 <= k < |name| ==>
         && !Whitespace(name[k]) && !IsLeft(b, name[k]) && !IsRight(b, name[k]) && !CommentAt(name, k)
         && name[k] != '"' && name[k] != '\\' && name[k] != '=' && name[k] != '\0'
  }

  lemma TurnInAtom(b: Brackets, s: string, r: Reader, name: string, k: nat, one: bool)
    requires Sane(b) && PlainAtom(b, name) && k < |name| && k <= r.i && Holds(s, r.i - k, name)
    requires var end := r.i - k + |name|; end == |s| || s[end] in {' ', '='}
    ensures Turn(b, s, r, true, one) == Go(r.(i := r.i + 1, text := r.text + [name[k]]))
  {
    var at := r.i - k;
    assert forall m :: k <= m < |name| ==> s[at + m] == name[m];
    assert s[r.i] == name[k];
    assert CommentAt(s, r.i) && !CommentAt(name, k) ==> k + 2 >= |name|;
    assert !CommentAt(s, r.i);
  }

  lemma {:induction false} ScanAtom(b: Brackets, s: string, r: Reader, name: string, k: nat, one: bool)
    requires Sane(b) && PlainAtom(b, name) && k <= |name| && k <= r.i && Holds(s, r.i - k, name)
    requires var end := r.i - k + |name|; end == |s| || s[end] in {' ', '='}
    requires !r.quoted && r.depth == 0
    ensures Scan(b, s, r, true, one)
         == Scan(b, s, r.(i := r.i - k + |name|, text := r.text + name[k..]), true, one)
    decreases |name| - k
  {
    hide Scan, Turn, Holds, PlainAtom;
    if k == |name| {
      assert r.text + name[k..] == r.text;
    } else {
      TurnInAtom(b, s, r, name, k, one);
      ScanTurn(b, s, r, true, one);
      ScanAtom(b, s, r.(i := r.i + 1, text := r.text + [name[k]]), name, k + 1, one);
      assert r.text + [name[k]] + name[k + 1..] == r.text + name[k..];
    }
  }

  lemma TurnAtEquals(b: Brackets, s: string, r: Reader, one: bool)
    requires Sane(b) && !r.quoted && r.depth == 0 && r.i < |s| && s[r.i] == '='
    ensures Turn(b, s, r, true, one) == Stop(r)
  {
  }

  lemma AtomStarts(b: Brackets, s: string, start: nat, name: string)
    requires PlainAtom(b, name) && Holds(s, start, name)
    ensures start + |name| <= |s| && name != "" && !Whitespace(s[start])
  {
    assert s[start] == s[start..start + |name|][0] == name[0];
  }

  lemma ReadAtom(b: Brackets, s: string, start: nat, name: string)
    requires Sane(b) && PlainAtom(b, name) && Holds(s, start, name)
    requires var end := start + |name|; end == |s| || s[end] in {' ', '='}
    ensures var end := start + |name|;
            ReadSexp(b, s, start, true, false) == (Some(name), if end < |s| && s[end] == ' ' then end + 1 else end)
  {
    hide Scan, Turn, Holds, PlainAtom, Sane, SkipBlanks;
    var end := start + |name|;
    AtomStarts(b, s, start, name);
    NoBlanksAt(s, start);
    ScanAtom(b, s, Start(start), name, 0, false);
    assert "" + name[0..] == name;
    var r := Start(start).(i := end, text := name);
    ScanTurn(b, s, r, true, false);
    if end < |s| && s[end] == '=' {
      TurnAtEquals(b, s, r, false);
    } else {
      TurnAtEnd(b, s, r, true, false);
    }
  }

  /** Where a printed argument may end: at the end of the text, or at the blank before another one. */
  predicate Separated(s: string, end: nat) {
    end == |s| || (end + 1 < |s| && s[end] == ' ' && !Whitespace(s[end + 1]) && s[end + 1] != '=')
  }

  /** Reading an argument that was printed without a value. */
  lemma ReadBareArg(b: Brackets, s: string, start: nat, name: string)
    requires Sane(b) && PlainAtom(b, name) && Holds(s, start, name) && Separated(s, start + |name|)
    ensures var end := start + |name|;
            ReadArg(b, s, start, true) == (Some(name), None, if end == |s| then end else end + 1)
  {
    hide ReadSexp, Holds, PlainAtom, Sane, SkipBlanks;
    var end := start + |name|;
    ReadAtom(b, s, start, name);
    NoBlanksAt(s, if end == |s| then end else end + 1);
  }

  /** Reading an argument that was printed with a value. */
  lemma ReadValuedArg(b: Brackets, s: string, start: nat, name: string, v: string)
    requires Sane(b) && PlainAtom(b, name) && Holds(s, start, name) && CString(v)
    requires var mid := start + |name|; mid < |s| && s[mid] == '=' && Holds(s, mid + 1, Quote(v))
    requires Separated(s, start + |name| + 1 + |Quote(v)|)
    ensures var end := start + |name| + 1 + |Quote(v)|;
            ReadArg(b, s, start, true) == (Some(name), Some(DropReturns(v)), if end == |s| then end else end + 1)
  {
    hide ReadSexp, Holds, PlainAtom, Sane, SkipBlanks, Quote, DropReturns, CString;
    var mid := start + |name|;
    ReadAtom(b, s, start, name);
    NoBlanksAt(s, mid);
    ReadAfterQuote(b, s, mid + 1, v, false, false);
  }

  /** What a printed argument with a value is made of. */
  lemma PrintArgParts(s: string, start: nat, a: Arg)
    requires a.value != "" && Holds(s, start, PrintArg(a))
    ensures var mid := start + |a.name|;
            && mid < |s| && s[mid] == '=' && Holds(s, start, a.name) && Holds(s, mid + 1, Quote(a.value))
            && start + |PrintArg(a)| == mid + 1 + |Quote(a.value)|
  {
    hide Quote, Holds;
    Regroup(a.name, "=", Quote(a.value));
    HoldsAround(s, start, a.name, '=', Quote(a.value));
  }

  /** Reading one printed argument, at the end of the text or before the blank that separates it. */
  lemma ReadPrintedArg(b: Brackets, s: string, start: nat, a: Arg)
    requires Sane(b) && PlainAtom(b, a.name) && CString(a.value) && Holds(s, start, PrintArg(a))
    requires Separated(s, start + |PrintArg(a)|)
    ensures var end := start + |PrintArg(a)|;
            ReadArg(b, s, start, true) == (Some(a.name), ReadBack(a).value, if end == |s| then end else end + 1)
  {
    hide ReadArg, Holds, Quote, PlainAtom, Sane, CString, DropReturns;
    if a.value == "" {
      ReadBareArg(b, s, start, a.name);
    } else {
      PrintArgParts(s, start, a);
      ReadValuedArg(b, s, start, a.name, a.value);
    }
  }

  predicate Printable(b: Brackets, args: seq<Arg>) {
    forall k :: 0 <= k < |args| ==> PlainAtom(b, args[k].name) && CString(args[k].value)
  }

  /** What is read for a printed argument. */
  function ReadBack(a: Arg): Given {
    Given(a.name, if a.value == "" then None else Some(DropReturns(a.value)))
  }

  function ReadAllBack(args: seq<Arg>): seq<Given> {
    seq(|args|, k requires 0 <= k < |args| => ReadBack(args[k]))
  }

  lemma {:induction false} SnarfFromPrinted(b: Brackets, s: string, start: nat, args: seq<Arg>)
    requires Sane(b) && Printable(b, args) && CString(s) && start <= |s| && s[start..] == Print(args)
    ensures Snarf(b, s, start, true) == ReadAllBack(args)
    decreases |args|
  {
    hide ReadArg, PrintArg, PlainAtom, ReadBack, Holds, Sane, CString;
    if args == [] {
      assert |s[start..]| == |s| - start;
    } else {
      var a, rest := args[0], args[1..];
      PrintedHead(b, s, start, args);
      ReadPrintedArg(b, s, start, a);
      NameReadBack(a);
      ReadArgMovesOn(b, s, start, true);
      SnarfFromPrinted(b, s, ReadArg(b, s, start, true).2, rest);
      assert ReadAllBack(args) == [ReadBack(a)] + ReadAllBack(rest);
    }
  }

  lemma NameReadBack(a: Arg)
    ensures ReadBack(a) == Given(a.name, ReadBack(a).value)
  {
  }

  lemma PrintArgStarts(b: Brackets, a: Arg)
    requires PlainAtom(b, a.name)
    ensures PrintArg(a) != "" && !Whitespace(PrintArg(a)[0]) && PrintArg(a)[0] != '='
  {
    assert PrintArg(a)[0] == a.name[0];
  }

  lemma PrintStarts(b: Brackets, args: seq<Arg>)
    requires Printable(b, args) && args != []
    ensures Print(args) != "" && !Whitespace(Print(args)[0]) && Print(args)[0] != '='
  {
    hide PrintArg, PlainAtom;
    PrintArgStarts(b, args[0]);
  }

  /** How a printed list starts. */
  lemma PrintedHead(b: Brackets, s: string, start: nat, args: seq<Arg>)
    requires Printable(b, args) && args != [] && start <= |s| && s[start..] == Print(args)
    ensures start < |s| && Holds(s, start, PrintArg(args[0]))
    ensures var end := start + |PrintArg(args[0])|;
            Separated(s, end) && if |args| == 1 then end == |s| else end < |s| && s[end + 1..] == Print(args[1..])
  {
    hide PrintArg, PlainAtom, Holds;
    var first := PrintArg(args[0]);
    PrintArgStarts(b, args[0]);
    if |args| == 1 {
      assert first + "" == first;
      SuffixParts(s, start, first, "");
    } else {
      var rest := args[1..];
      PrintStarts(b, rest);
      hide Print, Printable;
      SuffixAround(s, start, first, ' ', Print(rest));
      assert s[start + |first| + 1..][0] == s[start + |first| + 1];
    }
  }

  lemma {:induction false} EscapeIsCString(v: string)
    requires CString(v)
    ensures CString(Escape(v))
  {
    if v != "" { EscapeIsCString(v[1..]); }
  }

  lemma PrintArgIsReadable(b: Brackets, a: Arg)
    requires PlainAtom(b, a.name) && CString(a.value)
    ensures Readable(PrintArg(a)) && PrintArg(a) != ""
  {
    EscapeIsCString(a.value);
  }

  lemma {:induction false} PrintIsReadable(b: Brackets, args: seq<Arg>)
    requires Printable(b, args)
    ensures Readable(Print(args)) && (args != [] ==> Print(args) != "")
    decreases |args|
  {
    hide PrintArg, PlainAtom;
    if args != [] {
      PrintArgIsReadable(b, args[0]);
      PrintIsReadable(b, args[1..]);
    }
  }

  /** Snarfing what `mhtml_funargs` printed reads the names and values in order, the values without
      their carriage returns. */
  lemma SnarfAfterPrint(b: Brackets, args: seq<Arg>)
    requires Sane(b) && Printable(b, args)
    ensures Readable(Print(args)) && Complete(b, Print(args), 0, true)
    ensures Snarf(b, Print(args), 0, true) == ReadAllBack(args)
  {
    PrintIsReadable(b, args);
    ReadableIsComplete(b, Print(args), 0, true);
    assert Print(args)[0..] == Print(args);
    SnarfFromPrinted(b, Print(args), 0, args);
  }

  // ---------------------------------------------------------------- which round trips are the identity

  /** The ordered names and values that a package records. */
  function Lists(p: Package): (seq<string>, seq<string>) {
    (Values(p, "*pvars*"), Values(p, "*pvals*"))
  }

  function Names(args: seq<Arg>): seq<string> {
    seq(|args|, k requires 0 <= k < |args| => args[k].name)
  }

  function ArgValues(args: seq<Arg>): seq<string> {
    seq(|args|, k requires 0 <= k < |args| => args[k].value)
  }

  /** What `pagefunc_snarf_vars` records of the text that `mhtml_funargs` prints. */
  function RoundTrip(b: Brackets, args: seq<Arg>, numberOf: string -> int): (seq<string>, seq<string>)
    requires Sane(b) && Printable(b, args)
  {
    SnarfAfterPrint(b, args);
    Lists(RecordedAll(map[], Snarf(b, Print(args), 0, true), numberOf))
  }

  predicate NoReturns(args: seq<Arg>) {
    forall k :: 0 <= k < |args| ==> '\r' !in args[k].value
  }

  predicate IsIdentity(b: Brackets, args: seq<Arg>, numberOf: string -> int)
    requires Sane(b) && Printable(b, args)
  {
    RoundTrip(b, args, numberOf) == (Names(args), ArgValues(args))
  }

  /** The name refers to a cell of the two lists themselves, or to all cells of one. */
  predicate NamesList(name: string, numberOf: string -> int) {
    var r := ArrayVars.RefOf(name, numberOf);
    SymName(r.base) in {PVARS, PVALS} && (r.index.Cell? ==> r.index.k >= 0)
  }

  function GivenNames(gs: seq<Given>): (names: seq<string>)
    ensures |names| == |gs|
  {
    seq(|gs|, k requires 0 <= k < |gs| => gs[k].name)
  }

  function GivenValues(gs: seq<Given>): (values: seq<string>)
    ensures |values| == |gs|
  {
    seq(|gs|, k requires 0 <= k < |gs| => if gs[k].value.Some? then gs[k].value.value else "")
  }

  /** The two lists have their own places in a package. */
  lemma ListNames()
    ensures SymName("*pvars*") == PVARS && SymName("*pvals*") == PVALS && PVARS != PVALS
  {
    assert SymName("*pvars*")[4] == PVARS[4] == 'R' && PVALS[4] == 'L';
  }

  lemma RecordedLists(p: Package, g: Given, numberOf: string -> int)
    requires g.value.Some? ==> !NamesList(g.name, numberOf)
    ensures var (names, values) := Lists(p);
            Lists(Recorded(p, g, numberOf)) ==
            (names + [g.name], values + [if g.value.Some? then g.value.value else ""])
  {
    hide SymName;
    ListNames();
  }

  lemma {:induction false} RecordedAllLists(p: Package, gs: seq<Given>, numberOf: string -> int)
    requires forall k :: 0 <= k < |gs| && gs[k].value.Some? ==> !NamesList(gs[k].name, numberOf)
    ensures var (names, values) := Lists(p);
            Lists(RecordedAll(p, gs, numberOf)) == (names + GivenNames(gs), values + GivenValues(gs))
    decreases |gs|
  {
    hide Recorded, Lists, NamesList;
    var (names, values) := Lists(p);
    if gs == [] {
      assert names + GivenNames(gs) == names && values + GivenValues(gs) == values;
    } else {
      RecordedLists(p, gs[0], numberOf);
      RecordedAllLists(Recorded(p, gs[0], numberOf), gs[1..], numberOf);
      assert GivenNames(gs) == [gs[0].name] + GivenNames(gs[1..]);
      assert GivenValues(gs) == [if gs[0].value.Some? then gs[0].value.value else ""] + GivenValues(gs[1..]);
      Regroup(names, [gs[0].name], GivenNames(gs[1..]));
      Regroup(values, [if gs[0].value.Some? then gs[0].value.value else ""], GivenValues(gs[1..]));
    }
  }

  /** When no name that has a value refers to the two lists, the round trip is the identity exactly on
      the values without carriage returns. */
  lemma PrintThenSnarfIsIdentity(b: Brackets, args: seq<Arg>, numberOf: string -> int)
    requires Sane(b) && Printable(b, args)
    requires forall k :: 0 <= k < |args| && args[k].value != "" ==> !NamesList(args[k].name, numberOf)
    ensures IsIdentity(b, args, numberOf) <==> NoReturns(args)
  {
    hide Snarf, Print, PlainAtom, NamesList, DropReturns, RecordedAll, Sane;
    SnarfAfterPrint(b, args);
    var gs := ReadAllBack(args);
    RecordedAllLists(map[], gs, numberOf);
    assert GivenNames(gs) == Names(args);
    assert Lists(map[]) == ([], []);
    assert [] + GivenNames(gs) == GivenNames(gs) && [] + GivenValues(gs) == GivenValues(gs);
    forall k | 0 <= k < |args| ensures GivenValues(gs)[k] == args[k].value <==> '\r' !in args[k].value {
      DropReturnsIs(args[k].value);
    }
    assert GivenValues(gs) == ArgValues(args) <==>
           forall k :: 0 <= k < |args| ==> GivenValues(gs)[k] == args[k].value by {
      SameValues(GivenValues(gs), args);
    }
  }

  lemma SameValues(values: seq<string>, args: seq<Arg>)
    requires |values| == |args|
    ensures values == ArgValues(args) <==> forall k :: 0 <= k < |args| ==> values[k] == args[k].value
  {
    if values == ArgValues(args) {
      forall k | 0 <= k < |args| ensures values[k] == args[k].value {
        assert values[k] == ArgValues(args)[k];
      }
    }
  }

  lemma {:induction false} RecordedParts(p: Package, first: seq<Given>, rest: seq<Given>, numberOf: string -> int)
    ensures RecordedAll(p, first + rest, numberOf) == RecordedAll(RecordedAll(p, first, numberOf), rest, numberOf)
    decreases |first|
  {
    hide Recorded;
    if first == [] {
      assert first + rest == rest;
    } else {
      assert (first + rest)[1..] == first[1..] + rest;
      RecordedParts(Recorded(p, first[0], numberOf), first[1..], rest, numberOf);
    }
  }

  /** The arguments with these names, and with one value only, which is `v` at place `k`. */
  function OneValue(names: seq<string>, k: nat, v: string): seq<Arg> {
    seq(|names|, j requires 0 <= j < |names| => Arg(names[j], if j == k then v else ""))
  }

  /** A value that is not what the list of the `k` names before holds where `index` refers to. */
  function Spoiler(names: seq<string>, k: nat, index: ArrayVars.Index): string
    requires k <= |names|
  {
    var j := if index.All? then 0 else index.k;
    (if 0 <= j < k then names[j] else "") + "x"
  }

  /** Storing it changes that list, or the list of as many empty values. */
  lemma StoringSpoils(b: Brackets, names: seq<string>, k: nat, index: ArrayVars.Index, cells: seq<string>)
    requires k <= |names| && (forall j :: 0 <= j < |names| ==> PlainAtom(b, names[j]))
    requires index.Cell? ==> index.k >= 0
    requires cells == names[..k] || (|cells| == k && forall j :: 0 <= j < k ==> cells[j] == "")
    ensures var v := Spoiler(names, k, index);
            cells != ArrayVars.StoredAt(cells, index, v)
  {
    var v := Spoiler(names, k, index);
    var j := if index.All? then 0 else index.k;
    assert j < k ==> PlainAtom(b, names[j]);
    assert j < k ==> cells[j] != v;
    if index.All? {
      assert ArrayVars.Element(v);
      ArrayVars.SplitElement(v, 0, v);
      ArrayVars.SplitEnds(v);
      assert ArrayVars.Split(v, 0) == [v];
    } else {
      ArrayVars.SetCellChangesOneCell(cells, j, v);
    }
  }

  /** With these names the round trip is the identity on all values without carriage returns if and only
      if none of the names refers to the two lists. */
  lemma ListNamesSpoil(b: Brackets, names: seq<string>, numberOf: string -> int)
    requires Sane(b) && forall k :: 0 <= k < |names| ==> PlainAtom(b, names[k])
    ensures (forall args: seq<Arg> ::
               Printable(b, args) && Names(args) == names && NoReturns(args) ==> IsIdentity(b, args, numberOf))
            <==> forall k :: 0 <= k < |names| ==> !NamesList(names[k], numberOf)
  {
    hide IsIdentity, NamesList, PlainAtom, CString;
    if forall k :: 0 <= k < |names| ==> !NamesList(names[k], numberOf) {
      forall args: seq<Arg> | Printable(b, args) && Names(args) == names && NoReturns(args)
        ensures IsIdentity(b, args, numberOf)
      {
        assert forall k :: 0 <= k < |args| ==> args[k].name == Names(args)[k];
        PrintThenSnarfIsIdentity(b, args, numberOf);
      }
    } else {
      var k :| 0 <= k < |names| && NamesList(names[k], numberOf);
      var args := OneListName(b, names, k, numberOf);
    }
  }

  /** The counterexample: only the argument that names a list has a value. */
  lemma OneListName(b: Brackets, names: seq<string>, k: nat, numberOf: string -> int) returns (args: seq<Arg>)
    requires Sane(b) && (forall k :: 0 <= k < |names| ==> PlainAtom(b, names[k]))
    requires k < |names| && NamesList(names[k], numberOf)
    ensures Printable(b, args) && Names(args) == names && NoReturns(args) && !IsIdentity(b, args, numberOf)
  {
    hide PlainAtom, Sane, CString, IsIdentity;
    var r := ArrayVars.RefOf(names[k], numberOf);
    var v := Spoiler(names, k, r.index);
    SpoilerIsPlain(b, names, k, r.index);
    EmptyIsCString();
    args := OneValue(names, k, v);
    assert Names(args) == names;
    OneValueIsNoIdentity(b, names, k, v, numberOf);
  }

  lemma SpoilerIsPlain(b: Brackets, names: seq<string>, k: nat, index: ArrayVars.Index)
    requires k <= |names| && (forall j :: 0 <= j < |names| ==> PlainAtom(b, names[j]))
    ensures var v := Spoiler(names, k, index); v != "" && CString(v) && '\r' !in v && DropReturns(v) == v
  {
    var v := Spoiler(names, k, index);
    var j := if index.All? then 0 else index.k;
    assert 0 <= j < k ==> PlainAtom(b, names[j]);
    DropReturnsIs(v);
  }

  lemma OneValueIsNoIdentity(b: Brackets, names: seq<string>, k: nat, v: string, numberOf: string -> int)
    requires Sane(b) && (forall k :: 0 <= k < |names| ==> PlainAtom(b, names[k])) && Printable(b, OneValue(names, k, v))
    requires k < |names| && NamesList(names[k], numberOf)
    requires v == Spoiler(names, k, ArrayVars.RefOf(names[k], numberOf).index)
    ensures !IsIdentity(b, OneValue(names, k, v), numberOf)
  {
    hide PlainAtom, Sane, CString, Snarf, Print, RecordedAll, NamesList, Spoiler, DropReturns, Lists;
    var args := OneValue(names, k, v);
    SnarfAfterPrint(b, args);
    SpoilerIsPlain(b, names, k, ArrayVars.RefOf(names[k], numberOf).index);
    var gs := ReadAllBack(args);
    OneStore(b, names, k, gs, v, numberOf);
    assert Names(args)[..k] == names[..k];
    assert ArgValues(args)[..k] == ArrayVars.Blanks(k);
  }

  lemma EmptyIsCString()
    ensures CString("")
  {
  }

  lemma RecordedAround(gs: seq<Given>, k: nat, numberOf: string -> int)
    requires k < |gs|
    ensures RecordedAll(map[], gs, numberOf)
         == RecordedAll(Recorded(RecordedAll(map[], gs[..k], numberOf), gs[k], numberOf), gs[k + 1..], numberOf)
  {
    hide Recorded, RecordedAll;
    var rest := [gs[k]] + gs[k + 1..];
    assert gs == gs[..k] + rest;
    RecordedParts(map[], gs[..k], rest, numberOf);
    RecordedStep(RecordedAll(map[], gs[..k], numberOf), [gs[k]], gs[k + 1..], numberOf);
  }

  /** Before the stored value the lists are as printed, after it they only grow. */
  lemma AroundStore(gs: seq<Given>, k: nat, numberOf: string -> int) returns (p: Package)
    requires k < |gs| && forall j :: 0 <= j < |gs| && j != k ==> gs[j].value.None?
    ensures Lists(p) == (GivenNames(gs[..k]), GivenValues(gs[..k]))
    ensures var (ns, vs) := Lists(Recorded(p, gs[k], numberOf));
            Lists(RecordedAll(map[], gs, numberOf)) == (ns + GivenNames(gs[k + 1..]), vs + GivenValues(gs[k + 1..]))
  {
    hide Lists, Recorded, RecordedAll, NamesList, GivenNames, GivenValues;
    var before, after := gs[..k], gs[k + 1..];
    p := RecordedAll(map[], before, numberOf);
    RecordedAround(gs, k, numberOf);
    RecordedAllLists(map[], before, numberOf);
    RecordedAllLists(Recorded(p, gs[k], numberOf), after, numberOf);
    NothingListed();
    assert [] + GivenNames(before) == GivenNames(before) && [] + GivenValues(before) == GivenValues(before);
  }

  /** What one stored value does to the lists: the beginning of one of them is spoiled. */
  lemma OneStore(b: Brackets, names: seq<string>, k: nat, gs: seq<Given>, v: string, numberOf: string -> int)
    requires k < |names| && NamesList(names[k], numberOf) && (forall j :: 0 <= j < |names| ==> PlainAtom(b, names[j]))
    requires v == Spoiler(names, k, ArrayVars.RefOf(names[k], numberOf).index)
    requires |gs| == |names|
    requires forall j :: 0 <= j < |gs| ==> gs[j] == Given(names[j], if j == k then Some(v) else None)
    ensures var (ns, vs) := Lists(RecordedAll(map[], gs, numberOf));
            !(|ns| == |vs| == |gs| && ns[..k] == names[..k] && vs[..k] == ArrayVars.Blanks(k))
  {
    hide PlainAtom, NamesList, Spoiler, Lists, Recorded, RecordedAll;
    var p := AroundStore(gs, k, numberOf);
    assert GivenNames(gs[..k]) == names[..k];
    assert GivenValues(gs[..k]) == ArrayVars.Blanks(k);
    SpoiledHere(b, names, k, p, v, numberOf);
    hide GivenNames, GivenValues;
    var (ns, vs) := Lists(Recorded(p, gs[k], numberOf));
    TakeFirst(ns, GivenNames(gs[k + 1..]), k, |gs|);
    TakeFirst(vs, GivenValues(gs[k + 1..]), k, |gs|);
  }

  lemma TakeFirst(s: seq<string>, t: seq<string>, k: nat, n: nat)
    requires k < n && |t| == n - k - 1 && |s| > 0
    ensures |s + t| == n ==> |s| == k + 1 && (s + t)[..k] == s[..|s| - 1]
  {
  }

  lemma NothingListed()
    ensures Lists(map[]) == ([], [])
  {
  }

  /** The lists right after a value that spoils one of them. */
  lemma SpoiledHere(b: Brackets, names: seq<string>, k: nat, p: Package, v: string, numberOf: string -> int)
    requires k < |names| && NamesList(names[k], numberOf) && (forall j :: 0 <= j < |names| ==> PlainAtom(b, names[j]))
    requires v == Spoiler(names, k, ArrayVars.RefOf(names[k], numberOf).index)
    requires Lists(p) == (names[..k], ArrayVars.Blanks(k))
    ensures var (ns, vs) := Lists(Recorded(p, Given(names[k], Some(v)), numberOf));
            |ns| > 0 && |vs| > 0 && !(ns[..|ns| - 1] == names[..k] && vs[..|vs| - 1] == ArrayVars.Blanks(k))
  {
    hide PlainAtom, Spoiler, Recorded;
    var r := ArrayVars.RefOf(names[k], numberOf);
    StoringSpoils(b, names, k, r.index, names[..k]);
    StoringSpoils(b, names, k, r.index, ArrayVars.Blanks(k));
    ListsGrow(p, names[k], v, numberOf);
    StoredInList(p, names[k], v, numberOf);
  }

  /** Recording adds to the lists that storing leaves. */
  lemma ListsGrow(p: Package, name: string, v: string, numberOf: string -> int)
    ensures var (ns, vs) := Lists(Stored(p, name, v, numberOf));
            Lists(Recorded(p, Given(name, Some(v)), numberOf)) == (ns + [name], vs + [v])
    ensures var (ns, vs) := Lists(Stored(p, name, v, numberOf));
            (ns + [name])[..|ns|] == ns && (vs + [v])[..|vs|] == vs
  {
    hide SymName, Stored;
    ListNames();
  }

  /** Storing under a name of a list changes that list. */
  lemma StoredInList(p: Package, name: string, v: string, numberOf: string -> int)
    requires NamesList(name, numberOf)
    ensures var r := ArrayVars.RefOf(name, numberOf);
            var (ns, vs) := Lists(p);
            var cells := if SymName(r.base) == PVARS then ns else vs;
            var stored := ArrayVars.StoredAt(cells, r.index, v);
            Lists(Stored(p, name, v, numberOf)) == if SymName(r.base) == PVARS then (stored, vs) else (ns, stored)
  {
    hide SymName;
    ListNames();
  }

  /** What is still to be printed after the first `i` arguments. */
  function PrintFrom(args: seq<Arg>, i: nat): string
    requires i <= |args|
  {
    (if 0 < i < |args| then " " else "") + Print(args[i..])
  }

  lemma PrintStep(args: seq<Arg>, i: nat)
    requires i < |args|
    ensures PrintFrom(args, i) == (if i > 0 then " " else "") + PrintArg(args[i]) + PrintFrom(args, i + 1)
  {
    assert args[i..][1..] == args[i + 1..];
  }

  lemma PrintEnds(args: seq<Arg>)
    ensures PrintFrom(args, 0) == Print(args) && PrintFrom(args, |args|) == ""
  {
    assert args[0..] == args;
  }

  /** `mhtml_funargs`. */
  method Funargs(args: seq<Arg>) returns (text: string)
    ensures text == Print(args)
  {
    hide PrintFrom, Print, Quote, PrintArg;
    text := "";
    var i := 0;
    PrintEnds(args);
    while i < |args|
      invariant 0 <= i <= |args| && Print(args) == text + PrintFrom(args, i)
    {
      PrintStep(args, i);
      var gap, item := if i > 0 then " " else "", args[i].name;
      if args[i].value != "" {
        var quoted, k := QuoteForSetvar(args[i].value);
        item := item + "=" + quoted[..k];
      }
      PrintArgIs(args[i]);
      Regroup(text, gap + PrintArg(args[i]), PrintFrom(args, i + 1));
      text := text + (gap + item);
      i := i + 1;
    }
  }

  lemma PrintArgIs(a: Arg)
    ensures PrintArg(a) == if a.value != "" then a.name + "=" + Quote(a.value) else a.name
  {
  }
}

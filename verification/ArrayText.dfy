/** What array operations do cell by cell, and how arrays and cells are written (libmhtml/forms.c,
    libmhtml/arrayfuncs.c). */
module ArrayText {
  import opened CText
  import opened Slices
  import opened ArrayVars

  // ---------------------------------------------------------------- cells

  /** Shifting up moves every cell from the start on; the cells opened are empty. */
  lemma ShiftUpMoves(s: seq<string>, start: nat, n: int, k: nat)
    requires start < |s| && n >= 0 && k < |s| + n
    ensures |Shifted(s, start, n)| == |s| + n
    ensures Shifted(s, start, n)[k] == if k < start then s[k] else if k < start + n then "" else s[k - n]
  {
  }

  /** Shifting down takes cells away at the start, and moves those after them. */
  lemma ShiftDownMoves(s: seq<string>, start: nat, n: nat, k: nat)
    requires start + n <= |s| && 0 < n < |s| && k < |s| - n
    ensures Shiftable(s, start, -(n as int)) && |Shifted(s, start, -(n as int))| == |s| - n
    ensures Shifted(s, start, -(n as int))[k] == if k < start then s[k] else s[k + n]
  {
  }

  /** Nothing moves when the start is past the end, and a negative start is the first cell. */
  lemma ShiftEdges(s: seq<string>, start: int, n: int)
    requires n >= 0
    ensures start >= |s| ==> Shifted(s, start, n) == s
    ensures start < 0 ==> Shifted(s, start, n) == Shifted(s, 0, n)
    ensures s != [] && start <= 0 ==> Shifted(s, start, -(|s| + n)) == []
  {
  }

  // ---------------------------------------------------------------- lines

  /** The value of an array as it may be written: each element after whitespace, and behind it a newline if
      there is another. */
  datatype Line = Line(indent: string, element: string)

  predicate ProperLine(l: Line) {
    AllWhitespace(l.indent) && l.element != "" && !Whitespace(l.element[0]) && '\n' !in l.element
  }

  predicate ProperLines(ls: seq<Line>) {
    forall k :: 0 <= k < |ls| ==> ProperLine(ls[k])
  }

  function WriteLines(ls: seq<Line>): string {
    if ls == [] then ""
    else ls[0].indent + (ls[0].element + (if |ls| == 1 then "" else ['\n'] + WriteLines(ls[1..])))
  }

  function Elements(ls: seq<Line>): seq<string> {
    seq(|ls|, k requires 0 <= k < |ls| => ls[k].element)
  }

  /** Where a line starts and ends. */
  lemma LineIsElement(s: string, i: nat, l: Line)
    requires ProperLine(l) && Holds(s, i, l.indent) && Holds(s, i + |l.indent|, l.element)
    requires var end := i + |l.indent| + |l.element|; end == |s| || s[end] == '\n'
    ensures var start := i + |l.indent|;
            SkipBlanks(s, i) == start && LineEnd(s, start) == start + |l.element|
            && start + |l.element| <= |s| && s[start..start + |l.element|] == l.element && start < |s|
  {
    hide SkipBlanks, LineEnd;
    var start, e := i + |l.indent|, l.element;
    HoldsElement(s, start, e, 0);
    BlanksSkipped(s, i, l.indent);
    forall k | start <= k < start + |e| ensures s[k] != '\n' {
      HoldsElement(s, start, e, k - start);
    }
    LineEndIs(s, start, start + |e|);
    LineEndHere(s, start + |e|);
  }

  lemma SplitFirst(s: string, i: nat)
    requires i <= |s| && SkipBlanks(s, i) < |s|
    ensures var start := SkipBlanks(s, i);
            && start <= LineEnd(s, start) <= |s|
            && Split(s, i) == [s[start..LineEnd(s, start)]] + Split(s, LineEnd(s, start))
  {
    LineEndMoves(s, SkipBlanks(s, i));
  }

  /** The newline after an element is whitespace before the next. */
  lemma SplitAfterLineEnd(s: string, i: nat)
    requires i < |s| && s[i] == '\n'
    ensures Split(s, i) == Split(s, i + 1)
  {
  }

  /** Storing lines into `t[]` makes an array of their elements, without the whitespace before them. */
  lemma LinesParts(s: string, i: nat, ls: seq<Line>)
    requires i <= |s| && ls != [] && s[i..] == WriteLines(ls)
    ensures var l := ls[0];
            var end := i + |l.indent| + |l.element|;
            && Holds(s, i, l.indent) && Holds(s, i + |l.indent|, l.element) && end <= |s|
            && if |ls| == 1 then end == |s| else end < |s| && s[end] == '\n' && s[end + 1..] == WriteLines(ls[1..])
  {
    hide Holds;
    var l := ls[0];
    var end := i + |l.indent| + |l.element|;
    if |ls| == 1 {
      assert l.indent + (l.element + "") == l.indent + l.element;
      SuffixParts(s, i, l.indent, l.element);
      assert l.element + "" == l.element;
      SuffixParts(s, i + |l.indent|, l.element, "");
      HoldsRoom(s, i + |l.indent|, l.element);
    } else {
      SuffixParts(s, i, l.indent, l.element + (['\n'] + WriteLines(ls[1..])));
      SuffixAround(s, i + |l.indent|, l.element, '\n', WriteLines(ls[1..]));
    }
  }

  /** Storing lines into `t[]` makes an array of their elements, without the whitespace before them. */
  lemma {:induction false} SplitLines(s: string, i: nat, ls: seq<Line>)
    requires i <= |s| && s[i..] == WriteLines(ls) && ProperLines(ls)
    ensures Split(s, i) == Elements(ls)
    decreases |ls|
  {
    hide Split, SkipBlanks, LineEnd, Holds, ProperLine, WriteLines;
    if ls == [] {
      NothingWritten(s, i);
      SplitEnds(s);
    } else {
      var end := i + |ls[0].indent| + |ls[0].element|;
      LinesParts(s, i, ls);
      LineIsElement(s, i, ls[0]);
      SplitFirst(s, i);
      if |ls| == 1 {
        SplitEnds(s);
        assert Elements(ls) == [ls[0].element];
      } else {
        SplitAfterLineEnd(s, end);
        SplitLines(s, end + 1, ls[1..]);
        assert Elements(ls) == [ls[0].element] + Elements(ls[1..]);
      }
    }
  }

  lemma NothingWritten(s: string, i: nat)
    requires i <= |s| && s[i..] == WriteLines([])
    ensures i == |s|
  {
    assert |s[i..]| == |s| - i;
  }

  // ---------------------------------------------------------------- references

  lemma {:induction false} NotBefore(s: string, c: char, i: nat, j: nat)
    requires i <= j <= |s| && (forall k :: i <= k < j ==> s[k] != c) && (j < |s| ==> s[j] == c)
    ensures IndexOf(s, c, i) == j
    decreases j - i
  {
    if i < j { NotBefore(s, c, i + 1, j); }
  }

  /** A name without brackets is its first cell; so is one whose bracket is not closed. */
  lemma PlainName(tag: string, numberOf: string -> int)
    requires '[' !in tag || (exists i :: 0 <= i < |tag| && tag[i] == '[' && '[' !in tag[..i] && ']' !in tag[i + 1..])
    ensures RefOf(tag, numberOf) == Reference(tag, Cell(0))
  {
    if '[' !in tag {
      NotBefore(tag, '[', 0, |tag|);
    } else {
      var i :| 0 <= i < |tag| && tag[i] == '[' && '[' !in tag[..i] && ']' !in tag[i + 1..];
      forall k | 0 <= k < i ensures tag[k] != '[' { assert tag[k] == tag[..i][k]; }
      NotBefore(tag, '[', 0, i);
      forall k | i + 1 <= k < |tag| ensures tag[k] != ']' { assert tag[k] == tag[i + 1..][k - i - 1]; }
      NotBefore(tag, ']', i + 1, |tag|);
    }
  }

  lemma RefBetween(tag: string, i: nat, j: nat, numberOf: string -> int)
    requires i < j < |tag| && tag[i] == '[' && tag[j] == ']'
    requires (forall k :: 0 <= k < i ==> tag[k] != '[') && (forall k :: i < k < j ==> tag[k] != ']')
    ensures var index := tag[i + 1..j];
            RefOf(tag, numberOf)
            == Reference(tag[..i], if index == "" then All
                                   else if AllDigits(index) then Cell(Number(index)) else Cell(numberOf(index)))
  {
    hide Number, AllDigits, IndexOf;
    NotBefore(tag, '[', 0, i);
    NotBefore(tag, ']', i + 1, j);
  }

  lemma BracketParts(tag: string, name: string, index: string, rest: string)
    requires tag == name + (['['] + (index + ([']'] + rest))) && '[' !in name && ']' !in index
    ensures var i, j := |name|, |name| + 1 + |index|;
            && j < |tag| && tag[i] == '[' && tag[j] == ']' && tag[..i] == name && tag[i + 1..j] == index
            && (forall k :: 0 <= k < i ==> tag[k] != '[') && (forall k :: i < k < j ==> tag[k] != ']')
  {
    hide Holds;
    var inner, i, j := index + ([']'] + rest), |name|, |name| + 1 + |index|;
    SuffixAround(tag, 0, name, '[', inner) by { assert tag[0..] == tag; }
    SuffixAround(tag, i + 1, index, ']', rest);
    HoldsRoom(tag, 0, name);
    HoldsRoom(tag, i + 1, index);
    forall k | 0 <= k < i ensures tag[k] != '[' { HoldsElement(tag, 0, name, k); }
    forall k | i < k < j ensures tag[k] != ']' { HoldsElement(tag, i + 1, index, k - i - 1); }
  }

  /** A name with brackets refers to all cells if nothing is in them, to the cell with that number, or to the one
      whose number a variable holds; what comes after the brackets does not matter. */
  lemma BracketedName(tag: string, name: string, index: string, rest: string, numberOf: string -> int)
    requires tag == name + (['['] + (index + ([']'] + rest))) && '[' !in name && ']' !in index
    ensures RefOf(tag, numberOf)
         == Reference(name, if index == "" then All
                            else if AllDigits(index) then Cell(Number(index)) else Cell(numberOf(index)))
  {
    hide Number, AllDigits, RefOf;
    BracketParts(tag, name, index, rest);
    RefBetween(tag, |name|, |name| + 1 + |index|, numberOf);
  }

  /** Numbers are decimal, the last digit counting least. */
  lemma NumberIsDecimal(digits: string, d: nat)
    requires AllDigits(digits) && d < 10
    ensures AllDigits(digits + ["0123456789"[d]]) && Number(digits + ["0123456789"[d]]) == 10 * Number(digits) + d
    ensures Number("") == 0
  {
    assert (digits + ["0123456789"[d]])[..|digits|] == digits;
  }
}

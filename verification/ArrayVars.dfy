/** Array-valued variables (libmhtml/forms.c, libmhtml/arrayfuncs.c). */
module ArrayVars {
  import opened CText
  import opened Slices

  // ---------------------------------------------------------------- references to cells

  /** What a reference such as `t`, `t[3]` or `t[]` names: a variable, and one cell of it or all. */
  datatype Index = All | Cell(k: int)

  datatype Reference = Reference(base: string, index: Index)

  /** The first `c` at or after `i`, or the end. */
  function IndexOf(s: string, c: char, i: nat): (j: nat)
    requires i <= |s|
    ensures i <= j <= |s| && (j < |s| ==> s[j] == c) && forall k :: i <= k < j ==> s[k] != c
    decreases |s| - i
  {
    if i == |s| || s[i] == c then i else IndexOf(s, c, i + 1)
  }

  predicate Digit(c: char) {
    '0' <= c <= '9'
  }

  predicate AllDigits(s: string) {
    forall k :: 0 <= k < |s| ==> Digit(s[k])
  }

  /** `atoi` of digits. */
  function Number(digits: string): nat
    requires AllDigits(digits)
  {
    if digits == "" then 0
    else 10 * Number(digits[..|digits| - 1]) + (digits[|digits| - 1] as int - '0' as int)
  }

  /** What `tag` refers to. An index that is not a number is the name of a variable; `numberOf` gives
      the number that is its value, 0 if there is none. Brackets that do not close are part of the name. */
  function RefOf(tag: string, numberOf: string -> int): Reference {
    var i := IndexOf(tag, '[', 0);
    if i == |tag| then Reference(tag, Cell(0))
    else
      var j := IndexOf(tag, ']', i + 1);
      if j == |tag| then Reference(tag, Cell(0))
      else if j == i + 1 then Reference(tag[..i], All)
      else
        var index := tag[i + 1..j];
        Reference(tag[..i], Cell(if AllDigits(index) then Number(index) else numberOf(index)))
  }

  lemma DigitsOf(s: string, i: nat, j: nat)
    requires i <= j <= |s|
    ensures AllDigits(s[i..j]) <==> forall k :: i <= k < j ==> Digit(s[k])
  {
    if AllDigits(s[i..j]) {
      forall k | i <= k < j ensures Digit(s[k]) {
        assert s[i..j][k - i] == s[k];
      }
    }
  }

  /** The scan for an array indicator that both `forms_get_tag_value_in_package` and
      `forms_set_tag_value_in_package` begin with. */
  method ParseTag(tag: string, numberOf: string -> int) returns (name: string, arrayify: bool, valueIndex: int)
    ensures var r := RefOf(tag, numberOf);
            name == r.base && arrayify == r.index.All? && (r.index.Cell? ==> valueIndex == r.index.k)
  {
    hide AllDigits, Digit, Number;
    name, arrayify, valueIndex := tag, false, 0;
    var i := 0;
    while i < |tag| && tag[i] != '['
      invariant 0 <= i <= |tag| && IndexOf(tag, '[', 0) == IndexOf(tag, '[', i)
    {
      i := i + 1;
    }
    if i < |tag| {
      var allDigits, j := true, i + 1;
      while j < |tag| && tag[j] != ']'
        invariant i + 1 <= j <= |tag| && IndexOf(tag, ']', i + 1) == IndexOf(tag, ']', j)
        invariant allDigits <==> forall k :: i + 1 <= k < j ==> Digit(tag[k])
      {
        if !Digit(tag[j]) {
          allDigits := false;
        }
        j := j + 1;
      }
      assert allDigits <==> AllDigits(tag[i + 1..j]) by { DigitsOf(tag, i + 1, j); }
      if j < |tag| {
        if j == i + 1 {
          arrayify := true;
        } else if allDigits {
          valueIndex := Number(tag[i + 1..j]);
        } else {
          valueIndex := numberOf(tag[i + 1..j]);
        }
        name := tag[..i];
      }
    }
  }

  // ---------------------------------------------------------------- the sequence model

  function Blanks(n: nat): (s: seq<string>)
    ensures |s| == n && forall k :: 0 <= k < n ==> s[k] == ""
  {
    seq(n, _ => "")
  }

  /** At least `n` cells, the new ones empty. */
  function Padded(s: seq<string>, n: nat): seq<string> {
    if |s| >= n then s else s + Blanks(n - |s|)
  }

  /** After `t[k] = value`. A negative index stores nothing. */
  function WithCell(s: seq<string>, k: int, value: string): seq<string> {
    if k < 0 then s else Padded(s, k + 1)[k := value]
  }

  /** What storing `value` under a reference makes of the values of the variable. */
  function StoredAt(s: seq<string>, index: Index, value: string): seq<string> {
    match index
    case All => Split(value, 0)
    case Cell(k) => WithCell(s, k, value)
  }

  lemma StoredInFirst(s: seq<string>, value: string)
    ensures StoredAt(s, Cell(0), value) == if s == [] then [value] else s[0 := value]
  {
  }

  /** The value of `t[]`: the elements, separated by newlines. */
  function Joined(s: seq<string>): string {
    if s == [] then "" else if |s| == 1 then s[0] else s[0] + ("\n" + Joined(s[1..]))
  }

  /** What `t[] = value` makes of `value` from `start` on: whitespace is skipped, then an element goes
      up to the next newline. */
  function Split(value: string, start: nat): seq<string>
    requires start <= |value|
    decreases |value| - start
  {
    var i := SkipBlanks(value, start);
    if i == |value| then []
    else
      LineEndMoves(value, i);
      [value[i..LineEnd(value, i)]] + Split(value, LineEnd(value, i))
  }

  lemma LineEndMoves(s: string, i: nat)
    requires i < |s| && s[i] != '\n'
    ensures i < LineEnd(s, i) <= |s|
  {
  }

  /** After `array-shift amount t start=start`. */
  function Shifted(s: seq<string>, start: int, amount: int): seq<string>
    requires Shiftable(s, start, amount)
  {
    var from := if start < 0 then 0 else start;
    if |s| <= from then s
    else if amount >= 0 then s[..from] + Blanks(amount) + s[from..]
    else if |s| + amount <= 0 then []
    else s[..from] + s[from - amount..]
  }

  /** A negative shift that leaves cells takes away no more than there are after `start`. */
  predicate Shiftable(s: seq<string>, start: int, amount: int) {
    var from := if start < 0 then 0 else start;
    from < |s| && amount < 0 && |s| + amount > 0 ==> from - amount <= |s|
  }

  // ---------------------------------------------------------------- properties

  /** Setting a cell changes that cell, pads with empty cells, and changes nothing else. */
  lemma SetCellChangesOneCell(s: seq<string>, k: nat, value: string)
    ensures var t := WithCell(s, k, value);
            && |t| == (if k < |s| then |s| else k + 1) && t[k] == value
            && forall j :: 0 <= j < |t| && j != k ==> t[j] == if j < |s| then s[j] else ""
  {
    assert k >= |s| ==> Padded(s, k + 1) == s + Blanks(k + 1 - |s|);
  }

  /** An element that survives: not empty, on one line, not starting with whitespace. */
  predicate Element(e: string) {
    e != "" && !Whitespace(e[0]) && forall k :: 0 <= k < |e| ==> e[k] != '\n'
  }

  lemma {:induction false} SplitMakesElements(value: string, start: nat)
    requires start <= |value|
    ensures forall k :: 0 <= k < |Split(value, start)| ==> Element(Split(value, start)[k])
    decreases |value| - start
  {
    var i := SkipBlanks(value, start);
    if i < |value| {
      var j := LineEnd(value, i);
      LineEndMoves(value, i);
      var e := value[i..j];
      LineEndAt(value, i);
      SplitMakesElements(value, j);
    }
  }

  lemma SplitElement(value: string, start: nat, e: string)
    requires Element(e) && Holds(value, start, e)
    requires var end := start + |e|; end == |value| || value[end] == '\n'
    ensures Split(value, start) == [e] + Split(value, start + |e|)
  {
    var end := start + |e|;
    assert forall k :: start <= k < end ==> value[k] == e[k - start];
    LineEndIs(value, start, end);
    assert LineEnd(value, end) == end;
    assert value[start..end] == e;
  }

  /** How joined elements start. */
  lemma JoinedHead(value: string, start: nat, s: seq<string>)
    requires start <= |value| && s != [] && value[start..] == Joined(s)
    ensures Holds(value, start, s[0])
    ensures var end := start + |s[0]|;
            if |s| == 1 then end == |value|
            else end < |value| && value[end] == '\n' && value[end + 1..] == Joined(s[1..])
  {
    var e, end := s[0], start + |s[0]|;
    if |s| == 1 {
      assert e + "" == e;
      SuffixParts(value, start, e, "");
    } else {
      var tail := Joined(s[1..]);
      SuffixParts(value, start, e, "\n" + tail);
      SuffixParts(value, end, "\n", tail);
      assert value[end] == value[end..end + 1][0];
    }
  }

  lemma {:induction false} SplitJoined(value: string, start: nat, s: seq<string>)
    requires start <= |value| && value[start..] == Joined(s)
    requires forall k :: 0 <= k < |s| ==> Element(s[k])
    ensures Split(value, start) == s
    decreases |s|
  {
    hide Split, Element, Joined, Holds, LineEnd, SkipBlanks;
    if s == [] {
      NothingJoined(value, start);
    } else {
      var end := start + |s[0]|;
      JoinedHead(value, start, s);
      SplitElement(value, start, s[0]);
      if |s| == 1 {
        SplitEnds(value);
        assert s == [s[0]];
      } else {
        SplitAfterNewline(value, end);
        SplitJoined(value, end + 1, s[1..]);
        assert s == [s[0]] + s[1..];
      }
    }
  }

  lemma NothingJoined(value: string, start: nat)
    requires start <= |value| && value[start..] == Joined([])
    ensures Split(value, start) == []
  {
    assert |value[start..]| == |value| - start;
  }

  lemma SplitEnds(value: string)
    ensures Split(value, |value|) == []
  {
  }

  lemma SplitAfterNewline(value: string, i: nat)
    requires i < |value| && value[i] == '\n'
    ensures Split(value, i) == Split(value, i + 1)
  {
  }

  /** Storing the value of `t[]` back into `t[]` is the identity exactly on the arrays whose
      elements are not empty, on one line, and do not start with whitespace. */
  lemma SetAllToItself(s: seq<string>)
    ensures Split(Joined(s), 0) == s <==> forall k :: 0 <= k < |s| ==> Element(s[k])
  {
    var value := Joined(s);
    if forall k :: 0 <= k < |s| ==> Element(s[k]) {
      assert value[0..] == value;
      SplitJoined(value, 0, s);
    }
    SplitMakesElements(value, 0);
  }

  /** Shifting up and down again at the same place is the identity. */
  lemma ShiftBack(s: seq<string>, start: int, n: int)
    requires n >= 0
    ensures var t := Shifted(s, start, n); Shiftable(t, start, -n) && Shifted(t, start, -n) == s
  {
    var from := if start < 0 then 0 else start;
    var t := Shifted(s, start, n);
    if from < |s| {
      assert t[..from] == s[..from] && t[from + n..] == s[from..];
    }
  }

  // ---------------------------------------------------------------- helpers of the loops

  lemma SplitStep(value: string, start: nat)
    requires start <= |value|
    ensures var i := SkipBlanks(value, start);
            Split(value, start) ==
            if i == |value| then [] else [value[i..LineEnd(value, i)]] + Split(value, LineEnd(value, i))
  {
  }

  lemma JoinedStep(s: seq<string>, i: nat)
    requires i < |s|
    ensures Joined(s[i..]) == s[i] + (if i + 1 < |s| then "\n" else "") + Joined(s[i + 1..])
  {
    assert s[i..][1..] == s[i + 1..];
  }

  method SkipTo(value: string, start: nat) returns (i: nat)
    requires start <= |value|
    ensures i == SkipBlanks(value, start)
  {
    i := start;
    while i < |value| && Whitespace(value[i])
      invariant start <= i <= |value| && SkipBlanks(value, start) == SkipBlanks(value, i)
    {
      i := i + 1;
    }
  }

  // ---------------------------------------------------------------- the variable itself

  /** A slot of a value array; a null pointer ends the array. */
  datatype Slot = Null | Text(text: string)

  function Texts(slots: seq<Slot>): seq<string> {
    seq(|slots|, k requires 0 <= k < |slots| => if slots[k].Text? then slots[k].text else "")
  }

  lemma TextsPush(slots: seq<Slot>, e: string)
    ensures Texts(slots + [Text(e)]) == Texts(slots) + [e]
  {
  }

  lemma NothingLeft(s: seq<string>, i: nat)
    requires i == |s|
    ensures Joined(s[i..]) == ""
  {
  }

  /** `xrealloc`: an array of `slots` slots that starts like `a`. */
  method Grown(a: array<Slot>, slots: nat) returns (g: array<Slot>)
    ensures fresh(g) && g.Length == slots
    ensures forall i :: 0 <= i < slots && i < a.Length ==> g[i] == a[i]
  {
    g := new Slot[slots](i reads a => if 0 <= i < a.Length then a[i] else Null);
  }

  /** The first `count` slots are in use. Before anything is stored there is no array, modelled as
      one of no slots; after that a null slot follows the values. */
  ghost predicate Ended(values: array<Slot>, count: nat)
    reads values
  {
    if values.Length == 0 then count == 0
    else count < values.Length && values[count] == Null && forall i :: 0 <= i < count ==> values[i].Text?
  }

  /** Adds an element at the end, ten more slots being allotted when it does not fit. */
  method Append(values: array<Slot>, count: nat, e: string) returns (values': array<Slot>)
    requires Ended(values, count)
    modifies values
    ensures values' == values || fresh(values')
    ensures Ended(values', count + 1) && values'.Length > 0
    ensures Texts(values'[..count + 1]) == old(Texts(values[..count])) + [e]
  {
    ghost var before := values[..count];
    values' := values;
    if count + 2 > values.Length {
      values' := Grown(values, values.Length + 10);
    }
    values'[count] := Text(e);
    values'[count + 1] := Null;
    assert values'[..count + 1] == before + [Text(e)];
    TextsPush(before, e);
  }

  /** The values of a symbol, and `values_slots`, the number of slots it believes to have. */
  class Variable {
    var values: array<Slot>
    var count: nat
    var slots: nat

    /** Slots are told as soon as there are values, and never more than there are, unless there is no array. */
    ghost predicate Valid()
      reads this, values
    {
      Ended(values, count) && (count > 0 ==> slots >= 2) && (values.Length > 0 ==> slots <= values.Length)
    }

    /** `symbol_add_value` stays inside the array: that is as long as it is told to be, or becomes long
        enough when ten slots are added to those told. */
    ghost predicate Addable()
      reads this
    {
      count + 2 <= if count + 2 <= slots then values.Length else slots + 10
    }

    /** The slots are there, and they are enough for the values. */
    ghost predicate Accounted()
      reads this
    {
      slots <= values.Length && (count > 0 ==> count < slots)
    }

    ghost function Contents(): (s: seq<string>)
      reads this, values
      requires Valid()
      ensures |s| == count && forall i :: 0 <= i < count ==> values[i] == Text(s[i])
    {
      Texts(values[..count])
    }

    constructor ()
      ensures Valid() && Contents() == [] && slots == 0 && Accounted() && fresh(values)
    {
      values := new Slot[0];
      count, slots := 0, 0;
    }

    /** `symbol_add_value`. It relies on the number of slots, ten more of which it allots when they do
        not suffice. */
    method AddValue(value: string)
      requires Valid() && Addable()
      modifies this, values
      ensures Valid() && Contents() == old(Contents()) + [value] && (values == old(values) || fresh(values))
      ensures slots == old(slots) + if old(count) + 2 > old(slots) then 10 else 0
      ensures old(Accounted()) ==> Accounted()
    {
      ghost var s := Contents();
      if count + 2 > slots {
        slots := slots + 10;
        values := Grown(values, slots);
      }
      AddAt(s, value);
    }

    /** Puts a value and the null slot after it behind the values. */
    method AddAt(ghost s: seq<string>, value: string)
      requires count + 2 <= slots <= values.Length && |s| == count
      requires forall i :: 0 <= i < count ==> values[i] == Text(s[i])
      modifies this`count, values
      ensures Valid() && Contents() == s + [value] && count == old(count) + 1
    {
      values[count] := Text(value);
      count := count + 1;
      values[count] := Null;
    }

    /** Makes cells up to `k`, the new ones empty. */
    method PadTo(k: int)
      requires Valid() && k >= count
      modifies this
      ensures Valid() && Contents() == Padded(old(Contents()), k + 1) && fresh(values)
      ensures slots == values.Length == k + 2
    {
      ghost var was := Contents();
      slots := 2 + k;
      values := Grown(values, slots);
      while count <= k
        invariant |was| <= count <= k + 1 && slots == values.Length == 2 + k && fresh(values)
        invariant forall i :: 0 <= i < count ==> values[i] == Text(if i < |was| then was[i] else "")
      {
        values[count] := Text("");
        count := count + 1;
      }
      values[count] := Null;
    }

    method StoreAt(k: nat, value: string)
      requires Valid() && k < count
      modifies values
      ensures Valid() && Contents() == old(Contents())[k := value]
    {
      ghost var s := Contents();
      values[k] := Text(value);
      SameTexts(values[..count], s[k := value]);
    }

    /** Stores `value` in cell `k`, as `forms_set_tag_value_in_package` does for `t[k]`. */
    method SetCell(k: int, value: string)
      requires Valid()
      modifies this, values
      ensures Valid() && Contents() == WithCell(old(Contents()), k, value)
      ensures old(Accounted()) || k >= old(count) ==> Accounted()
      ensures slots == (if k >= old(count) then k + 2 else old(slots)) && (values == old(values) || fresh(values))
    {
      hide Texts, Ended, Blanks;
      if k >= count {
        PadTo(k);
      }
      if k > -1 {
        StoreAt(k, value);
      }
    }

    /** The value of `t[k]`, if the variable has that cell. */
    method GetCell(k: int) returns (value: Slot)
      requires Valid()
      ensures value == if 0 <= k < count then Text(Contents()[k]) else Null
    {
      value := if k < count && k > -1 then values[k] else Null;
    }

    /** Stores the lines of `value`, as `forms_set_tag_value_in_package` does for `t[]`. */
    method SetAll(value: string)
      requires Valid()
      modifies this
      ensures Valid() && Contents() == Split(value, 0) && fresh(values) && Accounted()
    {
      hide Split, Ended, Texts, SkipBlanks, LineEnd;
      var start := 0;
      var newValues, newCount := new Slot[0], 0;
      NothingStored(newValues);
      while start < |value|
        invariant 0 <= start <= |value| && 0 <= newCount && fresh(newValues) && Ended(newValues, newCount)
        invariant newCount <= newValues.Length
        invariant Split(value, 0) == Texts(newValues[..newCount]) + Split(value, start)
      {
        SplitStep(value, start);
        start := SkipTo(value, start);
        if start == |value| {
          break;
        }
        LineEndMoves(value, start);
        var i := ToLineEnd(value, start);
        Regroup(Texts(newValues[..newCount]), [value[start..i]], Split(value, i));
        newValues := Append(newValues, newCount, value[start..i]);
        EndedFits(newValues, newCount + 1);
        newCount := newCount + 1;
        start := i;
      }
      SplitEnds(value);
      values, count, slots := newValues, newCount, newValues.Length;
      EndedIsAccounted(values, count);
    }

    /** The value of `t[]`: every element up to the null slot, newlines between them; no value at
        all if nothing was ever stored. */
    method GetAll() returns (value: Slot)
      requires Valid()
      ensures value == if values.Length == 0 then Null else Text(Joined(Contents()))
    {
      if values.Length == 0 {
        return Null;
      }
      hide Joined;
      var temp := "";
      ghost var s := Contents();
      assert s[0..] == s;
      var i := 0;
      while values[i].Text?
        invariant 0 <= i <= count && Joined(s) == temp + Joined(s[i..])
        decreases count - i
      {
        JoinedStep(s, i);
        temp := temp + (values[i].text + if values[i + 1].Text? then "\n" else "");
        i := i + 1;
      }
      NothingLeft(s, i);
      value := Text(temp);
    }

    /** Moves the cells after the gap down over it. */
    method CopyDown(startpos: nat, amount: int)
      requires 0 < amount && startpos + amount <= count < values.Length
      modifies values
      ensures MovedDown(values[..], old(values[..]), startpos, amount, count)
    {
      hide MovedDown;
      ghost var was := values[..];
      var i := startpos + amount;
      NothingMoved(was, startpos, amount);
      while i < count
        invariant startpos + amount <= i <= count
        invariant MovedDown(values[..], was, startpos, amount, i)
        modifies values
      {
        MoveOneDown(values[..], was, startpos, amount, i);
        values[i - amount] := values[i];
        i := i + 1;
      }
    }

    /** Closes the gap of `amount` cells at `startpos`. */
    method MoveDown(startpos: nat, amount: int)
      requires Valid() && 0 < amount && startpos + amount <= count
      modifies this`count, values
      ensures Valid() && Contents() == old(Contents()[..startpos] + Contents()[startpos + amount..])
    {
      ghost var was, s := values[..], Contents();
      CopyDown(startpos, amount);
      ghost var now := values[..];
      values[count - amount] := Null;
      count := count - amount;
      GapClosed(now, was, startpos, amount, s);
      assert values[..count] == now[..count];
    }

    /** Moves the cells from `startpos` on, and the null slot after them, up by `amount`. */
    method CopyUp(startpos: nat, amount: int)
      requires Valid() && 0 < amount && startpos < count && count + amount < values.Length
      modifies values
      ensures forall k :: 0 <= k < startpos ==> values[k] == old(values[k])
      ensures forall k :: startpos + amount <= k <= count + amount ==> values[k] == old(values[..])[k - amount]
    {
      ghost var was := values[..];
      var i := count;
      while i > startpos - 1
        invariant startpos - 1 <= i <= count
        invariant forall k :: 0 <= k <= i ==> values[k] == was[k]
        invariant forall k :: i + amount < k <= count + amount ==> values[k] == was[k - amount]
      {
        values[i + amount] := values[i];
        i := i - 1;
      }
    }

    /** Opens a gap of `amount` empty cells at `startpos`. */
    method MoveUp(startpos: nat, amount: int)
      requires Valid() && 0 < amount && startpos < count && count + amount < values.Length
      modifies this`count, values
      ensures Valid() && Contents() == old(Contents()[..startpos]) + Blanks(amount) + old(Contents()[startpos..])
    {
      ghost var was, s := values[..], Contents();
      CopyUp(startpos, amount);
      var i := startpos;
      while i < startpos + amount
        invariant startpos <= i <= startpos + amount
        invariant forall k :: 0 <= k < startpos ==> values[k] == was[k]
        invariant forall k :: startpos <= k < i ==> values[k] == Text("")
        invariant forall k :: startpos + amount <= k <= count + amount ==> values[k] == was[k - amount]
        modifies values
      {
        values[i] := Text("");
        i := i + 1;
      }
      count := count + amount;
      GapOpened(was, values[..], s, startpos, amount);
    }

    /** `xrealloc` of the value array. The number of slots is not told. */
    method Reserve(newSlots: nat)
      requires Valid() && 0 < count < newSlots && slots <= newSlots
      modifies this`values
      ensures Valid() && Contents() == old(Contents()) && fresh(values) && values.Length == newSlots
    {
      ghost var s := Contents();
      values := Grown(values, newSlots);
      assert Contents() == s;
    }

    /** `array-shift` on this variable. It never updates the number of slots. Fewer are then there than told
        exactly if the shift empties the array; they do not suffice for the values exactly if it does that or
        outgrows them; and the next `symbol_add_value` writes outside the array exactly if it does that or
        outgrows them by more than eight. */
    method Shift(start: int, amount: int)
      requires Valid() && Shiftable(Contents(), start, amount)
      modifies this, values
      ensures Valid() && Contents() == Shifted(old(Contents()), start, amount) && slots == old(slots)
      ensures values == old(values) || fresh(values)
      ensures var idle, newsize := start >= old(count) || old(count) == 0 || amount == 0, old(count) + amount;
              && (idle ==> values == old(values))
              && (!idle ==>
                    && values.Length == (if newsize <= 0 then 0
                                         else if amount > 0 && newsize >= slots then newsize + 1
                                         else old(values.Length))
                    && (slots <= values.Length <==> 0 < newsize)
                    && (Accounted() <==> 0 < newsize < slots)
                    && (Addable() <==> 0 < newsize <= slots + 8))
              && (old(Accounted()) ==> (Addable() <==> idle || 0 < newsize <= slots + 8))
    {
      hide Texts, Blanks;
      var startpos := if start < 0 then 0 else start;
      if count > startpos {
        var newsize := count + amount;
        if amount < 0 {
          if newsize <= 0 {
            values, count := new Slot[0], 0;
            assert Contents() == [];
          } else {
            MoveDown(startpos, -amount);
          }
        } else if amount > 0 {
          if newsize >= slots {
            Reserve(newsize + 1);
          }
          MoveUp(startpos, amount);
        } else {
          ShiftByNothing(Contents(), startpos);
        }
      }
    }

    /** `array-reverse` on this variable: the cells are swapped from both ends. */
    method Reverse()
      requires Valid()
      modifies values
      ensures Valid() && Contents() == Reversed(old(Contents()))
    {
      hide SwappedTo, Texts;
      ghost var was := Contents();
      ReversedAt(was);
      if count > 1 {
        SwapStarts(values[..], was);
        var head, tail := 0, count - 1;
        while head < tail
          invariant 0 <= head <= tail + 1 && tail == count - 1 - head
          invariant SwappedTo(values[..], was, head)
        {
          SwapStep(values[..], was, head);
          SwapCells(head, tail);
          head, tail := head + 1, tail - 1;
        }
        SwappedAll(values[..], was, head);
        assert values[..][..count] == values[..count];
      } else {
        assert Reversed(was) == was;
      }
    }

    method SwapCells(i: nat, j: nat)
      requires i < j < values.Length
      modifies values
      ensures values[..] == old(values[..])[i := old(values[j])][j := old(values[i])]
    {
      var temp := values[i];
      values[i] := values[j];
      values[j] := temp;
    }
  }

  /** Shifting a variable up and back down restores it, even if it outgrows its slots in between. */
  method ShiftUpAndDown(v: Variable, start: int, n: int)
    requires v.Valid() && n >= 0
    modifies v, v.values
    ensures v.Valid() && v.Contents() == old(v.Contents()) && v.slots == old(v.slots)
    ensures v.Accounted() == old(v.Accounted()) && v.Addable() == old(v.Addable())
  {
    ghost var s := v.Contents();
    ShiftBack(s, start, n);
    v.Shift(start, n);
    v.Shift(start, -n);
  }

  /** A variable whose one value is shifted out: ten slots are told, none is there. */
  method ShiftOut(value: string) returns (v: Variable)
    ensures fresh(v) && v.Valid() && v.Contents() == []
    ensures v.slots == 10 && v.values.Length == 0 && !v.Addable()
  {
    v := new Variable();
    v.AddValue(value);
    v.Shift(0, -1);
  }

  /** A variable whose one value is shifted up by `n`: only two slots are told. Another value can be added up
      to a shift by nine. */
  method ShiftPast(value: string, n: nat) returns (v: Variable)
    requires n > 0
    ensures fresh(v) && v.Valid() && v.Contents() == Blanks(n) + [value]
    ensures v.slots == 2 && v.values.Length == n + 2 && (v.Addable() <==> n <= 9)
  {
    v := new Variable();
    v.SetCell(0, value);
    v.Shift(0, n);
  }

  lemma GapOpened(was: seq<Slot>, cells: seq<Slot>, s: seq<string>, startpos: nat, amount: nat)
    requires startpos < |s| < |was| && |s| + amount < |cells| && was[|s|] == Null
    requires forall k :: 0 <= k < |s| ==> was[k] == Text(s[k])
    requires forall k :: 0 <= k < startpos ==> cells[k] == was[k]
    requires forall k :: startpos <= k < startpos + amount ==> cells[k] == Text("")
    requires forall k :: startpos + amount <= k <= |s| + amount ==> cells[k] == was[k - amount]
    ensures cells[|s| + amount] == Null && forall k :: 0 <= k < |s| + amount ==> cells[k].Text?
    ensures Texts(cells[..|s| + amount]) == s[..startpos] + Blanks(amount) + s[startpos..]
  {
    hide Texts;
    var all := s[..startpos] + Blanks(amount) + s[startpos..];
    forall k | 0 <= k < |s| + amount ensures cells[k] == Text(all[k]) {
    }
    SameTexts(cells[..|s| + amount], all);
  }

  /** The first and the last `head` cells have been swapped, the others have not. */
  predicate SwappedTo(cells: seq<Slot>, was: seq<string>, head: nat) {
    && |was| < |cells| && cells[|was|] == Null
    && forall k :: 0 <= k < |was| ==>
         cells[k] == Text(was[if k < head || k >= |was| - head then |was| - 1 - k else k])
  }

  lemma SwapStarts(cells: seq<Slot>, was: seq<string>)
    requires |was| < |cells| && cells[|was|] == Null && forall k :: 0 <= k < |was| ==> cells[k] == Text(was[k])
    ensures SwappedTo(cells, was, 0)
  {
  }

  lemma SwapStep(cells: seq<Slot>, was: seq<string>, head: nat)
    requires SwappedTo(cells, was, head) && 2 * head + 1 < |was|
    ensures var tail := |was| - 1 - head;
            SwappedTo(cells[head := cells[tail]][tail := cells[head]], was, head + 1)
  {
  }

  lemma SwappedAll(cells: seq<Slot>, was: seq<string>, head: nat)
    requires SwappedTo(cells, was, head) && |was| <= 2 * head + 1 <= |was| + 1
    ensures |was| < |cells| && cells[|was|] == Null && forall k :: 0 <= k < |was| ==> cells[k].Text?
    ensures Texts(cells[..|was|]) == Reversed(was)
  {
    hide Reversed, Texts;
    ReversedAt(was);
    forall k | 0 <= k < |was| ensures cells[k] == Text(Reversed(was)[k]) {
      if head <= k < |was| - head { assert k == |was| - 1 - k; }
    }
    SameTexts(cells[..|was|], Reversed(was));
  }

  lemma SameTexts(slots: seq<Slot>, s: seq<string>)
    requires |slots| == |s| && forall k :: 0 <= k < |s| ==> slots[k] == Text(s[k])
    ensures Texts(slots) == s
  {
  }

  lemma EndedIsAccounted(a: array<Slot>, count: nat)
    requires Ended(a, count)
    ensures count > 0 ==> count < a.Length
  {
  }

  /** The cells from `startpos + amount` up to `i` have been moved down by `amount`. */
  predicate MovedDown(cells: seq<Slot>, was: seq<Slot>, startpos: nat, amount: int, i: int) {
    && |cells| == |was| && 0 < amount && startpos + amount <= i <= |was|
    && cells[..startpos] == was[..startpos]
    && cells[startpos..i - amount] == was[startpos + amount..i]
    && cells[i..] == was[i..]
  }

  lemma NothingMoved(was: seq<Slot>, startpos: nat, amount: int)
    requires 0 < amount && startpos + amount <= |was|
    ensures MovedDown(was, was, startpos, amount, startpos + amount)
  {
  }

  lemma MoveOneDown(cells: seq<Slot>, was: seq<Slot>, startpos: nat, amount: int, i: int)
    requires MovedDown(cells, was, startpos, amount, i) && i < |was|
    ensures MovedDown(cells[i - amount := cells[i]], was, startpos, amount, i + 1)
  {
    var now := cells[i - amount := cells[i]];
    assert cells[i..][0] == was[i..][0];
    assert now[startpos..i + 1 - amount] == cells[startpos..i - amount] + [was[i]];
    assert was[startpos + amount..i + 1] == was[startpos + amount..i] + [was[i]];
    assert now[i + 1..] == cells[i..][1..] == was[i + 1..];
  }

  lemma GapClosed(now: seq<Slot>, was: seq<Slot>, startpos: nat, amount: int, s: seq<string>)
    requires |s| <= |was| && MovedDown(now, was, startpos, amount, |s|)
    requires forall k :: 0 <= k < |s| ==> was[k] == Text(s[k])
    ensures Texts(now[..|s| - amount]) == s[..startpos] + s[startpos + amount..]
    ensures forall k :: 0 <= k < |s| - amount ==> now[k].Text?
  {
    var rest := s[..startpos] + s[startpos + amount..];
    forall k | 0 <= k < |s| - amount ensures now[k] == Text(rest[k]) {
      if k < startpos {
        assert now[k] == now[..startpos][k] == was[..startpos][k];
      } else {
        assert now[k] == now[startpos..|s| - amount][k - startpos] == was[startpos + amount..|s|][k - startpos];
      }
    }
    SameTexts(now[..|s| - amount], rest);
  }

  function Reversed(s: seq<string>): seq<string> {
    if s == [] then [] else Reversed(s[1..]) + [s[0]]
  }

  lemma {:induction false} ReversedAt(s: seq<string>)
    ensures |Reversed(s)| == |s| && forall k :: 0 <= k < |s| ==> Reversed(s)[k] == s[|s| - 1 - k]
    decreases |s|
  {
    if s != [] {
      ReversedAt(s[1..]);
    }
  }

  /** Reversing twice gives the array back. */
  lemma ReverseTwice(s: seq<string>)
    ensures Reversed(Reversed(s)) == s
  {
    ReversedAt(s);
    ReversedAt(Reversed(s));
  }

  lemma ShiftByNothing(s: seq<string>, from: nat)
    requires from <= |s|
    ensures s[..from] + Blanks(0) + s[from..] == s
  {
  }

  lemma NothingStored(a: array<Slot>)
    requires a.Length == 0
    ensures Ended(a, 0) && Texts(a[..0]) == []
  {
  }

  lemma EndedFits(a: array<Slot>, count: nat)
    requires Ended(a, count)
    ensures count <= a.Length
  {
  }
}

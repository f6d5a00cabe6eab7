/** The URL encoding of form data (libmhtml/forms.c; section 8.2.1 of RFC 1866, section 2.1 of RFC 3986). */
module Forms {
  import opened Bytes
  import opened Slices
  import Symbols

  const AMPERSAND: Byte := 38
  const EQUALS: Byte := 61
  const PERCENT: Byte := 37
  const PLUS: Byte := 43
  const SPACE: Byte := 32

  // ---------------------------------------------------------------- encoding

  predicate Alphanumeric(c: Byte) {
    48 <= c <= 57 || 65 <= c <= 90 || 97 <= c <= 122
  }

  /** Written as it is: letters, digits and `.-_@:`. */
  predicate Unreserved(c: Byte) {
    Alphanumeric(c) || c == 46 || c == 45 || c == 95 || c == 64 || c == 58
  }

  /** The hexadecimal digit for `n`, in upper case. */
  function HexDigit(n: int): Byte
    requires 0 <= n < 16
  {
    if n < 10 then 48 + n else 55 + n
  }

  function EncodeByte(c: Byte): Text {
    if Unreserved(c) then [c]
    else if c == SPACE then [PLUS]
    else [PERCENT, HexDigit(c / 16), HexDigit(c % 16)]
  }

  function Encode(s: Text): Text {
    if s == [] then [] else EncodeByte(s[0]) + Encode(s[1..])
  }

  datatype Pair = Pair(name: Text, value: Text)

  function EncodePair(p: Pair): Text {
    Encode(p.name) + [EQUALS] + Encode(p.value)
  }

  function Join(pairs: seq<Pair>): Text {
    if pairs == [] then []
    else if |pairs| == 1 then EncodePair(pairs[0])
    else EncodePair(pairs[0]) + [AMPERSAND] + Join(pairs[1..])
  }

  /** A variable by its full name, with all its values. */
  datatype Variable = Variable(name: Text, values: seq<Text>)

  function PairsOf(name: Text, values: seq<Text>): seq<Pair> {
    seq(|values|, k requires 0 <= k < |values| => Pair(name, values[k]))
  }

  /** Every value of every variable under its variable's name, in order. */
  function Pairs(vars: seq<Variable>): seq<Pair> {
    if vars == [] then [] else PairsOf(vars[0].name, vars[0].values) + Pairs(vars[1..])
  }

  // ---------------------------------------------------------------- decoding

  /** What `parse_hex_pair` makes of one digit: its worth, if it is one. */
  function HexValue(c: Byte): (v: int)
    ensures -1 <= v < 16
  {
    if 48 <= c <= 57 then c - 48
    else if 97 <= c <= 102 then c - 87
    else if 65 <= c <= 70 then c - 55
    else -1
  }

  /** `parse_hex_pair`: a second character that is no digit leaves the first as the value. */
  function HexPair(c1: Byte, c2: Byte): Byte {
    var high := if HexValue(c1) < 0 then 0 else HexValue(c1);
    var low := if c1 == 0 then -1 else HexValue(c2);
    if low < 0 then high else high * 16 + low
  }

  /** `cleanup`: what is written for `s`. */
  function Decode(s: Text): Text
    decreases |s|
  {
    if s == [] then []
    else if s[0] == PERCENT then [HexPair(ByteAt(s, 1), ByteAt(s, 2))] + Decode(if |s| >= 3 then s[3..] else [])
    else if s[0] == PLUS then [SPACE] + Decode(s[1..])
    else [s[0]] + Decode(s[1..])
  }

  /** What is left of `s` as a C string: everything before its first NUL. */
  function Visible(s: Text): Text {
    if s == [] || s[0] == 0 then [] else [s[0]] + Visible(s[1..])
  }

  /** The first ampersand at or after `i`, or the end. */
  function Ampersand(s: Text, i: nat): (j: nat)
    requires i <= |s|
    ensures i <= j <= |s| && (j < |s| ==> s[j] == AMPERSAND) && forall k :: i <= k < j ==> s[k] != AMPERSAND
    decreases |s| - i
  {
    if i == |s| || s[i] == AMPERSAND then i else Ampersand(s, i + 1)
  }

  /** The last equals sign from `i` up to `j`, or -1. */
  function LastEquals(s: Text, i: nat, j: nat): (e: int)
    requires i <= j <= |s|
    ensures e == -1 || (i <= e < j && s[e] == EQUALS)
    decreases j - i
  {
    if i == j then -1 else if s[j - 1] == EQUALS then j - 1 else LastEquals(s, i, j - 1)
  }

  /** The pairs `forms_parse_data_string` finds from `start` on; a piece without an equals sign
      ends the parse. */
  function Parse(s: Text, start: nat): seq<Pair>
    decreases |s| - start
  {
    if start >= |s| then []
    else
      var i := Ampersand(s, start);
      var equal := LastEquals(s, start, i);
      if equal < 0 then []
      else [Pair(Visible(Decode(s[start..equal])), Visible(Decode(s[equal + 1..i])))] + Parse(s, i + 1)
  }

  // ---------------------------------------------------------------- the round trip

  predicate Transmittable(pairs: seq<Pair>) {
    forall k :: 0 <= k < |pairs| ==> IsText(pairs[k].name) && IsText(pairs[k].value)
  }

  lemma EncodeByteIsSafe(c: Byte)
    ensures forall k :: 0 <= k < |EncodeByte(c)| ==> EncodeByte(c)[k] !in {AMPERSAND, EQUALS, 0}
  {
  }

  lemma {:induction false} EncodeIsSafe(s: Text)
    requires IsText(s)
    ensures forall k :: 0 <= k < |Encode(s)| ==> Encode(s)[k] !in {AMPERSAND, EQUALS, 0}
  {
    if s != [] {
      EncodeByteIsSafe(s[0]);
      EncodeIsSafe(s[1..]);
    }
  }

  lemma DecodeStep(c: Byte, rest: Text)
    ensures Decode(EncodeByte(c) + rest) == [c] + Decode(rest)
  {
    var e := EncodeByte(c);
    assert (e + rest)[|e|..] == rest;
    if |e| == 3 && rest == [] { assert e + rest == e; }
  }

  lemma {:induction false} DecodeEncode(s: Text)
    ensures Decode(Encode(s)) == s
  {
    if s != [] {
      DecodeStep(s[0], Encode(s[1..]));
      DecodeEncode(s[1..]);
    }
  }

  lemma {:induction false} VisibleIsText(s: Text)
    requires IsText(s)
    ensures Visible(s) == s
  {
    if s != [] { VisibleIsText(s[1..]); }
  }

  lemma {:induction false} AmpersandIs(s: Text, i: nat, j: nat)
    requires i <= j <= |s| && (forall k :: i <= k < j ==> s[k] != AMPERSAND) && (j < |s| ==> s[j] == AMPERSAND)
    ensures Ampersand(s, i) == j
    decreases j - i
  {
    if i < j { AmpersandIs(s, i + 1, j); }
  }

  lemma {:induction false} LastEqualsIs(s: Text, i: nat, e: nat, j: nat)
    requires i <= e < j <= |s| && s[e] == EQUALS && (forall k :: e < k < j ==> s[k] != EQUALS)
    ensures LastEquals(s, i, j) == e
    decreases j
  {
    if e < j - 1 { LastEqualsIs(s, i, e, j - 1); }
  }

  /** Text that the scan for pairs passes over. */
  predicate Safe(t: Text) {
    forall k :: 0 <= k < |t| ==> t[k] != AMPERSAND && t[k] != EQUALS
  }

  lemma EncodedIsSafe(s: Text)
    requires IsText(s)
    ensures Safe(Encode(s))
  {
    EncodeIsSafe(s);
  }

  lemma HeldIsSafe(s: Text, i: nat, t: Text)
    requires Holds(s, i, t) && Safe(t)
    ensures i + |t| <= |s| && s[i..i + |t|] == t
    ensures forall k :: i <= k < i + |t| ==> s[k] != AMPERSAND && s[k] != EQUALS
  {
    forall k | i <= k < i + |t| ensures s[k] != AMPERSAND && s[k] != EQUALS {
      assert s[k] == s[i..i + |t|][k - i];
    }
  }

  /** Where the scans find an equals sign between two safe texts, and the end of the second. */
  lemma BoundsBetween(s: Text, start: nat, name: Text, value: Text)
    requires Safe(name) && Safe(value) && Holds(s, start, name + ([EQUALS] + value))
    requires var end := start + |name| + 1 + |value|; end < |s| ==> s[end] == AMPERSAND
    ensures var n, end := start + |name|, start + |name| + 1 + |value|;
            && Ampersand(s, start) == end && LastEquals(s, start, end) == n && n + 1 <= end <= |s|
            && s[start..n] == name && s[n + 1..end] == value
  {
    hide Holds, Safe, Ampersand, LastEquals;
    var n, end := start + |name|, start + |name| + 1 + |value|;
    HoldsAround(s, start, name, EQUALS, value);
    HeldIsSafe(s, start, name);
    HeldIsSafe(s, n + 1, value);
    AmpersandIs(s, start, end);
    LastEqualsIs(s, start, n, end);
  }

  /** Where the scans find the parts of an encoded pair. */
  lemma PairBounds(s: Text, start: nat, p: Pair)
    requires IsText(p.name) && IsText(p.value) && Holds(s, start, EncodePair(p))
    requires var end := start + |EncodePair(p)|; end < |s| ==> s[end] == AMPERSAND
    ensures var n, end := start + |Encode(p.name)|, start + |EncodePair(p)|;
            && Ampersand(s, start) == end && LastEquals(s, start, end) == n && n + 1 <= end <= |s|
            && s[start..n] == Encode(p.name) && s[n + 1..end] == Encode(p.value)
  {
    hide Encode, IsText, Holds, Safe, Ampersand, LastEquals;
    EncodedIsSafe(p.name);
    EncodedIsSafe(p.value);
    Regroup(Encode(p.name), [EQUALS], Encode(p.value));
    BoundsBetween(s, start, Encode(p.name), Encode(p.value));
  }

  /** The first pair of joined text, and where the next one starts. */
  lemma ParsePair(s: Text, start: nat, p: Pair)
    requires IsText(p.name) && IsText(p.value) && Holds(s, start, EncodePair(p))
    requires var end := start + |EncodePair(p)|; end < |s| ==> s[end] == AMPERSAND
    ensures Parse(s, start) == [p] + Parse(s, start + |EncodePair(p)| + 1)
  {
    hide Encode, Decode, Visible, Ampersand, LastEquals, Parse;
    PairBounds(s, start, p);
    DecodeEncode(p.name);
    DecodeEncode(p.value);
    VisibleIsText(p.name);
    VisibleIsText(p.value);
    ParseStep(s, start);
  }

  lemma ParseStep(s: Text, start: nat)
    ensures Parse(s, start) ==
            if start >= |s| then []
            else
              var i := Ampersand(s, start);
              var equal := LastEquals(s, start, i);
              if equal < 0 then []
              else [Pair(Visible(Decode(s[start..equal])), Visible(Decode(s[equal + 1..i])))] + Parse(s, i + 1)
  {
    hide Ampersand, LastEquals, Visible, Decode;
  }

  /** How joined text starts. */
  lemma JoinedHead(s: Text, start: nat, pairs: seq<Pair>)
    requires pairs != [] && start <= |s| && s[start..] == Join(pairs)
    ensures Holds(s, start, EncodePair(pairs[0]))
    ensures var end := start + |EncodePair(pairs[0])|;
            if |pairs| == 1 then end == |s|
            else end < |s| && s[end] == AMPERSAND && s[end + 1..] == Join(pairs[1..])
  {
    hide EncodePair;
    var text := EncodePair(pairs[0]);
    if |pairs| == 1 {
      assert text + [] == text;
      SuffixParts(s, start, text, []);
    } else {
      var tail := Join(pairs[1..]);
      Regroup(text, [AMPERSAND], tail);
      SuffixParts(s, start, text, [AMPERSAND] + tail);
      SuffixParts(s, start + |text|, [AMPERSAND], tail);
      assert s[start + |text|] == AMPERSAND;
    }
  }

  lemma {:induction false} ParseJoined(s: Text, start: nat, pairs: seq<Pair>)
    requires Transmittable(pairs) && start <= |s| && s[start..] == Join(pairs)
    ensures Parse(s, start) == pairs
    decreases |pairs|
  {
    hide EncodePair, Parse, Join, Holds;
    if pairs == [] {
      NothingJoined(s, start);
    } else {
      var next := start + |EncodePair(pairs[0])| + 1;
      JoinedHead(s, start, pairs);
      ParsePair(s, start, pairs[0]);
      if |pairs| == 1 {
        ParseStep(s, next);
        assert pairs == [pairs[0]];
      } else {
        ParseJoined(s, next, pairs[1..]);
        assert pairs == [pairs[0]] + pairs[1..];
      }
    }
  }

  lemma NothingJoined(s: Text, start: nat)
    requires start <= |s| && s[start..] == Join([])
    ensures Parse(s, start) == []
  {
    assert |s[start..]| == |s| - start;
  }

  /** Parsing what was written gives back every name with every value, in order. */
  lemma ParseUnparsed(vars: seq<Variable>)
    requires Transmittable(Pairs(vars))
    ensures Parse(Join(Pairs(vars)), 0) == Pairs(vars)
  {
    assert Join(Pairs(vars))[0..] == Join(Pairs(vars));
    ParseJoined(Join(Pairs(vars)), 0, Pairs(vars));
  }

  // ---------------------------------------------------------------- the variables that come back

  /** The values of each variable, under its name as it is folded. */
  type Package = map<Text, seq<Text>>

  function AddedAll(package: Package, pairs: seq<Pair>): Package
    decreases |pairs|
  {
    if pairs == [] then package
    else AddedAll(Symbols.Added(package, Symbols.Folded(pairs[0].name), pairs[0].value), pairs[1..])
  }

  /** All values under names that are folded to `name`, in order. */
  function ValuesFor(vars: seq<Variable>, name: Text): seq<Text> {
    if vars == [] then []
    else (if Symbols.Folded(vars[0].name) == name then vars[0].values else []) + ValuesFor(vars[1..], name)
  }

  lemma {:induction false} AddedParts(package: Package, first: seq<Pair>, rest: seq<Pair>)
    ensures AddedAll(package, first + rest) == AddedAll(AddedAll(package, first), rest)
    decreases |first|
  {
    if first == [] {
      assert first + rest == rest;
    } else {
      assert (first + rest)[1..] == first[1..] + rest;
      AddedParts(Symbols.Added(package, Symbols.Folded(first[0].name), first[0].value), first[1..], rest);
    }
  }

  /** Adding the values of one variable changes that variable only. */
  lemma {:induction false} AddedOne(package: Package, name: Text, values: seq<Text>)
    ensures var key := Symbols.Folded(name);
            AddedAll(package, PairsOf(name, values))
            == if values == [] then package else package[key := Symbols.ValuesOf(package, key) + values]
    decreases |values|
  {
    if values != [] {
      var key := Symbols.Folded(name);
      var package' := Symbols.Added(package, key, values[0]);
      assert PairsOf(name, values)[1..] == PairsOf(name, values[1..]);
      AddedOne(package', name, values[1..]);
      var all := Symbols.ValuesOf(package, key) + values;
      assert all == Symbols.ValuesOf(package', key) + values[1..];
      assert package'[key := all] == package[key := all];
      assert |values| == 1 ==> values == [values[0]] && all == package'[key];
    }
  }

  /** Parsing into a package adds to each variable all values under names folded to its own. */
  lemma {:induction false} AddedAllIs(package: Package, vars: seq<Variable>, name: Text)
    ensures Symbols.ValuesOf(AddedAll(package, Pairs(vars)), name)
         == Symbols.ValuesOf(package, name) + ValuesFor(vars, name)
    ensures name in AddedAll(package, Pairs(vars)) <==> name in package || ValuesFor(vars, name) != []
    decreases |vars|
  {
    hide AddedAll, PairsOf, Symbols.Folded, ValuesFor;
    ValuesForFirst(vars, name);
    if vars == [] {
      NothingAdded(package);
    } else {
      var added := AddedAll(package, PairsOf(vars[0].name, vars[0].values));
      AddedParts(package, PairsOf(vars[0].name, vars[0].values), Pairs(vars[1..]));
      AddedToOne(package, vars[0].name, vars[0].values, name);
      AddedAllIs(added, vars[1..], name);
      Regroup(Symbols.ValuesOf(package, name), if Symbols.Folded(vars[0].name) == name then vars[0].values else [],
              ValuesFor(vars[1..], name));
    }
  }

  lemma NothingAdded(package: Package)
    ensures AddedAll(package, []) == package
  {
  }

  lemma ValuesForFirst(vars: seq<Variable>, name: Text)
    ensures ValuesFor(vars, name) ==
            if vars == [] then []
            else (if Symbols.Folded(vars[0].name) == name then vars[0].values else []) + ValuesFor(vars[1..], name)
  {
  }

  lemma AddedToOne(package: Package, name: Text, values: seq<Text>, other: Text)
    ensures var added := AddedAll(package, PairsOf(name, values));
            && Symbols.ValuesOf(added, other)
               == Symbols.ValuesOf(package, other) + (if Symbols.Folded(name) == other then values else [])
            && (other in added <==> other in package || (Symbols.Folded(name) == other && values != []))
  {
    AddedOne(package, name, values);
  }

  /** No two names with values are the same once folded. */
  predicate NamesApart(vars: seq<Variable>) {
    forall i, j :: 0 <= i < j < |vars| && Symbols.Folded(vars[i].name) == Symbols.Folded(vars[j].name) ==>
                     vars[i].values == [] == vars[j].values
  }

  /** What parsing makes of what `forms_unparse_items` wrote. */
  function SentAndParsed(vars: seq<Variable>): Package {
    AddedAll(map[], Parse(Join(Pairs(vars)), 0))
  }

  lemma {:induction false} NoValuesFor(vars: seq<Variable>, name: Text)
    requires forall j :: 0 <= j < |vars| && Symbols.Folded(vars[j].name) == name ==> vars[j].values == []
    ensures ValuesFor(vars, name) == []
  {
    if vars != [] { NoValuesFor(vars[1..], name); }
  }

  lemma {:induction false} ValuesForOne(vars: seq<Variable>, i: nat)
    requires i < |vars|
    requires forall j :: 0 <= j < |vars| && j != i && Symbols.Folded(vars[j].name) == Symbols.Folded(vars[i].name) ==>
                           vars[j].values == []
    ensures ValuesFor(vars, Symbols.Folded(vars[i].name)) == vars[i].values
  {
    if i == 0 {
      NoValuesFor(vars[1..], Symbols.Folded(vars[0].name));
    } else {
      ValuesForOne(vars[1..], i - 1);
    }
  }

  lemma {:induction false} ValuesForMany(vars: seq<Variable>, name: Text, i: nat, j: nat)
    requires i <= j < |vars| && Symbols.Folded(vars[i].name) == name == Symbols.Folded(vars[j].name)
    ensures |ValuesFor(vars, name)| >= if i == j then |vars[i].values| else |vars[i].values| + |vars[j].values|
  {
    if i > 0 {
      ValuesForMany(vars[1..], name, i - 1, j - 1);
    } else if j > 0 {
      ValuesForMany(vars[1..], name, j - 1, j - 1);
    }
  }

  /** Every variable comes back with all its values if and only if the names stay apart when they are folded. */
  lemma VariablesComeBack(vars: seq<Variable>)
    requires Transmittable(Pairs(vars))
    ensures (forall i :: 0 <= i < |vars| ==>
               Symbols.ValuesOf(SentAndParsed(vars), Symbols.Folded(vars[i].name)) == vars[i].values)
            <==> NamesApart(vars)
  {
    hide ValuesFor, AddedAll, Parse, Join, Pairs;
    ParseUnparsed(vars);
    forall i | 0 <= i < |vars|
      ensures Symbols.ValuesOf(SentAndParsed(vars), Symbols.Folded(vars[i].name))
           == ValuesFor(vars, Symbols.Folded(vars[i].name))
    {
      AddedAllIs(map[], vars, Symbols.Folded(vars[i].name));
    }
    if NamesApart(vars) {
      forall i | 0 <= i < |vars| ensures ValuesFor(vars, Symbols.Folded(vars[i].name)) == vars[i].values {
        ValuesForOne(vars, i);
      }
    } else {
      var i, j :| 0 <= i < j < |vars| && Symbols.Folded(vars[i].name) == Symbols.Folded(vars[j].name)
                  && !(vars[i].values == [] == vars[j].values);
      ValuesForMany(vars, Symbols.Folded(vars[i].name), i, j);
    }
  }

  /** `vars` are the variables of `package`, in whatever order and case. */
  predicate Lists(vars: seq<Variable>, package: Package) {
    && (forall i :: 0 <= i < |vars| ==>
          Symbols.Folded(vars[i].name) in package && package[Symbols.Folded(vars[i].name)] == vars[i].values)
    && (forall name :: name in package ==> exists i :: 0 <= i < |vars| && Symbols.Folded(vars[i].name) == name)
    && (forall i, j :: 0 <= i < j < |vars| ==> Symbols.Folded(vars[i].name) != Symbols.Folded(vars[j].name))
  }

  /** A package that is written and parsed comes back, but for the variables without values. */
  lemma PackageComesBack(vars: seq<Variable>, package: Package)
    requires Lists(vars, package) && Transmittable(Pairs(vars))
    ensures SentAndParsed(vars) == map name | name in package && package[name] != [] :: package[name]
  {
    hide ValuesFor, AddedAll, Parse, Join, Pairs;
    ParseUnparsed(vars);
    forall name ensures ValuesFor(vars, name) == if name in package then package[name] else [] {
      if name in package {
        var i :| 0 <= i < |vars| && Symbols.Folded(vars[i].name) == name;
        ValuesForOne(vars, i);
      } else {
        NoValuesFor(vars, name);
      }
    }
    var sent := SentAndParsed(vars);
    forall name
      ensures name in sent <==> name in package && package[name] != []
      ensures name in sent ==> sent[name] == package[name]
    {
      AddedAllIs(map[], vars, name);
    }
  }

  // ---------------------------------------------------------------- the loops

  /** `a` holds the C string `s`. */
  ghost predicate Buffer(a: array<Byte>, s: Text)
    reads a
  {
    |s| < a.Length && a[..|s|] == s && a[|s|] == 0 && IsText(s)
  }

  function DecodeFrom(s: Text, i: nat): Text {
    if i <= |s| then Decode(s[i..]) else []
  }

  lemma DecodeFromStep(s: Text, i: nat)
    ensures DecodeFrom(s, i) ==
            if i >= |s| then []
            else if s[i] == PERCENT then [HexPair(ByteAt(s, i + 1), ByteAt(s, i + 2))] + DecodeFrom(s, i + 3)
            else if s[i] == PLUS then [SPACE] + DecodeFrom(s, i + 1)
            else [s[i]] + DecodeFrom(s, i + 1)
  {
    if i < |s| {
      var t := s[i..];
      assert t[1..] == s[i + 1..] && (|t| >= 3 ==> t[3..] == s[i + 3..]);
      assert ByteAt(t, 1) == ByteAt(s, i + 1) && ByteAt(t, 2) == ByteAt(s, i + 2) && Decode([]) == [];
    }
  }

  /** `parse_hex_pair` on the buffer itself. */
  method ParseHexPair(a: array<Byte>, at: nat, ghost s: Text) returns (value: Byte)
    requires at <= |s| < a.Length && a[|s|] == 0 && IsText(s) && forall k :: at <= k < |s| ==> a[k] == s[k]
    ensures value == HexPair(ByteAt(s, at), ByteAt(s, at + 1))
  {
    var c1, c2 := a[at], 0;
    if c1 != 0 {
      c2 := a[at + 1];
    }
    var high := HexValue(c1);
    var low := HexValue(c2);
    value := if high < 0 then 0 else high;
    if low >= 0 {
      value := value * 16 + low;
    }
  }

  /** The character that stands at `i`, and where the next one starts. */
  method DecodeOne(a: array<Byte>, i: nat, ghost s: Text) returns (value: Byte, next: nat)
    requires i < |s| < a.Length && a[|s|] == 0 && IsText(s) && forall k :: i <= k < |s| ==> a[k] == s[k]
    ensures i < next && DecodeFrom(s, i) == [value] + DecodeFrom(s, next)
  {
    hide DecodeFrom;
    DecodeFromStep(s, i);
    next := i + 1;
    if a[i] == PERCENT {
      value := ParseHexPair(a, i + 1, s);
      next := i + 3;
    } else if a[i] == PLUS {
      value := SPACE;
    } else {
      value := a[i];
    }
  }

  /** `cleanup`, which decodes in place: the result is never ahead of what is still to be read. */
  method Cleanup(a: array<Byte>, ghost s: Text) returns (j: nat)
    requires Buffer(a, s)
    modifies a
    ensures j < a.Length && a[..j] == Decode(s) && a[j] == 0
  {
    hide Decode, DecodeFrom;
    var len := StringLength(a, s);
    var i := 0;
    j := 0;
    DecodeFromStart(s);
    assert a[..0] == [];
    while i < len
      invariant 0 <= j <= i && j <= |s| && a[|s|] == 0 && (forall k :: i <= k < |s| ==> a[k] == s[k])
      invariant Decode(s) == a[..j] + DecodeFrom(s, i)
    {
      ghost var written := a[..j];
      var value, next := DecodeOne(a, i, s);
      a[j] := value;
      Regroup(written, [value], DecodeFrom(s, next));
      assert a[..j + 1] == written + [value];
      j := j + 1;
      i := next;
    }
    DecodeFromStep(s, i);
    a[j] := 0;
  }

  lemma DecodeFromStart(s: Text)
    ensures DecodeFrom(s, 0) == Decode(s)
  {
    assert s[0..] == s;
  }

  /** `strlen`. */
  method StringLength(a: array<Byte>, ghost s: Text) returns (n: nat)
    requires Buffer(a, s)
    ensures n == |s|
  {
    n := 0;
    assert forall k :: 0 <= k < |s| ==> a[k] == a[..|s|][k];
    while a[n] != 0
      invariant 0 <= n <= |s|
      decreases |s| - n
    {
      n := n + 1;
    }
  }

  /** A decoded copy of `s`, cut at its first NUL: `strdup`, then `cleanup`. */
  method Cleaned(s: Text) returns (t: Text)
    requires IsText(s)
    ensures t == Visible(Decode(s))
  {
    hide Decode, Visible;
    var a := new Byte[|s| + 1](i requires 0 <= i <= |s| => if i < |s| then s[i] else 0);
    assert a[..|s|] == s;
    var j := Cleanup(a, s);
    t := [];
    var k := 0;
    ghost var d := a[..j];
    assert d[0..] == d;
    while a[k] != 0
      invariant 0 <= k <= j && a[j] == 0 && a[..j] == d && Visible(d) == t + Visible(d[k..])
      decreases j - k
    {
      VisibleStep(d, k);
      Regroup(t, [a[k]], Visible(d[k + 1..]));
      t := t + [a[k]];
      k := k + 1;
    }
    VisibleStep(d, k);
  }

  lemma VisibleStep(d: Text, k: nat)
    requires k <= |d|
    ensures Visible(d[k..]) == if k == |d| || d[k] == 0 then [] else [d[k]] + Visible(d[k + 1..])
  {
    assert k < |d| ==> d[k..][1..] == d[k + 1..];
  }

  /** Finds the end of the pair at `start` and its last equals sign. */
  method FindPair(input: Text, start: nat) returns (equal: int, i: nat)
    requires start <= |input|
    ensures i == Ampersand(input, start) && equal == LastEquals(input, start, i)
  {
    equal, i := -1, start;
    while i < |input| && input[i] != AMPERSAND
      invariant start <= i <= |input| && equal == LastEquals(input, start, i)
      invariant Ampersand(input, start) == Ampersand(input, i)
    {
      if input[i] == EQUALS {
        equal := i;
      }
      i := i + 1;
    }
  }

  /** `forms_parse_data_string`: every value is added to the variable of its name in the package. */
  method ParseDataString(input: Text, package: Package) returns (result: Package)
    requires IsText(input)
    ensures result == AddedAll(package, Parse(input, 0))
  {
    hide Decode, Visible, Parse, Ampersand, LastEquals;
    result := package;
    var start := 0;
    while start < |input|
      invariant 0 <= start && AddedAll(package, Parse(input, 0)) == AddedAll(result, Parse(input, start))
      decreases |input| - start
    {
      ParseStep(input, start);
      var equal, i := FindPair(input, start);
      if equal < 0 {
        return;
      }
      var name := Cleaned(input[start..equal]);
      var value := Cleaned(input[equal + 1..i]);
      AddedFirst(result, Pair(name, value), Parse(input, i + 1));
      result := Symbols.Added(result, Symbols.Folded(name), value);
      start := i + 1;
    }
    ParseStep(input, start);
  }

  lemma AddedFirst(package: Package, p: Pair, rest: seq<Pair>)
    ensures AddedAll(package, [p] + rest)
         == AddedAll(Symbols.Added(package, Symbols.Folded(p.name), p.value), rest)
  {
    assert ([p] + rest)[1..] == rest;
  }

  // ---------------------------------------------------------------- writing

  lemma EncodeFrom(s: Text, i: nat)
    requires i <= |s|
    ensures Encode(s[i..]) == if i == |s| then [] else EncodeByte(s[i]) + Encode(s[i + 1..])
  {
    if i < |s| { assert s[i..][1..] == s[i + 1..]; }
  }

  method EncodeOne(c: Byte) returns (t: Text)
    ensures t == EncodeByte(c)
  {
    if Unreserved(c) {
      t := [c];
    } else if c == SPACE {
      t := [PLUS];
    } else {
      t := [PERCENT, HexDigit(c / 16), HexDigit(c % 16)];
    }
  }

  /** The encoding loop of `forms_unparse_items`, which runs once for a name and once for a value. */
  method EncodeText(s: Text) returns (t: Text)
    ensures t == Encode(s)
  {
    hide Encode, EncodeByte;
    t := [];
    var from := 0;
    assert s[0..] == s;
    while from < |s|
      invariant 0 <= from <= |s| && Encode(s) == t + Encode(s[from..])
    {
      EncodeFrom(s, from);
      var piece := EncodeOne(s[from]);
      Regroup(t, piece, Encode(s[from + 1..]));
      t := t + piece;
      from := from + 1;
    }
    EncodeFrom(s, from);
  }

  lemma {:induction false} JoinAppend(pairs: seq<Pair>, p: Pair)
    ensures Join(pairs + [p]) == if pairs == [] then EncodePair(p) else Join(pairs) + [AMPERSAND] + EncodePair(p)
    decreases |pairs|
  {
    hide EncodePair;
    if |pairs| == 1 {
      assert (pairs + [p])[1..] == [p];
    } else if pairs != [] {
      JoinAppend(pairs[1..], p);
      assert (pairs + [p])[1..] == pairs[1..] + [p];
    }
  }

  lemma {:induction false} PairsUpTo(vars: seq<Variable>, i: nat)
    requires i < |vars|
    ensures Pairs(vars[..i + 1]) == Pairs(vars[..i]) + PairsOf(vars[i].name, vars[i].values)
    decreases |vars|
  {
    hide PairsOf;
    if i == 0 {
      assert vars[..1][1..] == [] && vars[..0] == [];
    } else {
      PairsUpTo(vars[1..], i - 1);
      assert vars[..i + 1][1..] == vars[1..][..i] && vars[..i][1..] == vars[1..][..i - 1];
    }
  }

  /** Adds one encoded pair. A pair is never empty, so `result` is empty just before the first. */
  method AddPair(result: Text, name: Text, value: Text, ghost pairs: seq<Pair>)
    returns (result': Text)
    requires result == Join(pairs) && (result == [] <==> pairs == [])
    ensures result' == Join(pairs + [Pair(name, value)]) && result' != []
  {
    hide Join, EncodePair;
    var encodedName := EncodeText(name);
    var encodedValue := EncodeText(value);
    EncodedPair(Pair(name, value));
    JoinAppend(pairs, Pair(name, value));
    result' := result;
    if |result| != 0 {
      result' := result' + [AMPERSAND];
    }
    result' := result' + (encodedName + [EQUALS] + encodedValue);
  }

  /** The pairs of one variable, one for each value. */
  method AddPairs(result: Text, name: Text, values: seq<Text>, ghost pairs: seq<Pair>)
    returns (result': Text)
    requires result == Join(pairs) && (result == [] <==> pairs == [])
    ensures result' == Join(pairs + PairsOf(name, values)) && (result' == [] <==> pairs + PairsOf(name, values) == [])
  {
    hide Join;
    result' := result;
    ghost var now := pairs;
    assert pairs + PairsOf(name, values)[..0] == pairs;
    var j := 0;
    while j < |values|
      invariant 0 <= j <= |values| && now == pairs + PairsOf(name, values)[..j]
      invariant result' == Join(now) && (result' == [] <==> now == [])
    {
      result' := AddPair(result', name, values[j], now);
      assert PairsOf(name, values)[..j + 1] == PairsOf(name, values)[..j] + [Pair(name, values[j])];
      now := now + [Pair(name, values[j])];
      j := j + 1;
    }
    assert PairsOf(name, values)[..j] == PairsOf(name, values);
  }

  /** `forms_unparse_items`. */
  method UnparseItems(vars: seq<Variable>) returns (result: Text)
    ensures result == Join(Pairs(vars))
  {
    hide Join, Pairs, PairsOf;
    result := [];
    var i := 0;
    NothingYet(vars);
    while i < |vars|
      invariant 0 <= i <= |vars| && result == Join(Pairs(vars[..i])) && (result == [] <==> Pairs(vars[..i]) == [])
    {
      PairsUpTo(vars, i);
      result := AddPairs(result, vars[i].name, vars[i].values, Pairs(vars[..i]));
      i := i + 1;
    }
    assert vars[..i] == vars;
  }

  lemma NothingYet(vars: seq<Variable>)
    ensures Pairs(vars[..0]) == [] && Join([]) == []
  {
  }

  lemma EncodedPair(p: Pair)
    ensures EncodePair(p) == Encode(p.name) + [EQUALS] + Encode(p.value) && EncodePair(p) != []
  {
  }
}

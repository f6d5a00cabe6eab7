/** The characters of the URL encoding (libmhtml/forms.c; section 2.1 of RFC 3986, section 8.2.1 of RFC 1866). */
module FormText {
  import opened Bytes
  import opened Forms
  import opened Slices

  /** A character as a byte. */
  function Code(c: char): Byte
    requires c as int < 256
  {
    c as int
  }

  predicate Hex(c: char, n: nat) {
    n < 16 && (c == "0123456789ABCDEF"[n] || c == "0123456789abcdef"[n])
  }

  predicate IsHex(c: char) {
    exists n :: 0 <= n < 16 && Hex(c, n)
  }

  /** Letters, digits and `.-_@:` are written as they are, a blank as a plus sign, everything else as a percent
      sign and two hexadecimal digits in upper case. */
  lemma EncodedByteIs(c: Byte)
    ensures var ch := c as char;
            EncodeByte(c) ==
            if 'a' <= ch <= 'z' || 'A' <= ch <= 'Z' || '0' <= ch <= '9' || ch in {'.', '-', '_', '@', ':'} then [c]
            else if ch == ' ' then [Code('+')]
            else [Code('%'), Code("0123456789ABCDEF"[c / 16]), Code("0123456789ABCDEF"[c % 16])]
  {
  }

  lemma HexIs(c: char, n: nat)
    requires Hex(c, n)
    ensures c as int < 256 && HexValue(Code(c)) == n && c != '\0'
  {
  }

  lemma NoHexIs(c: Byte)
    ensures !IsHex(c as char) ==> HexValue(c) == -1
  {
    if HexValue(c) >= 0 {
      assert Hex(c as char, HexValue(c));
    }
  }

  /** A percent sign and two hexadecimal digits, in either case, are one byte. */
  lemma PairIsDecoded(c: char, d: char, m: nat, n: nat, rest: Text)
    requires Hex(c, m) && Hex(d, n)
    ensures c as int < 256 && d as int < 256
            && Decode([Code('%'), Code(c), Code(d)] + rest) == [16 * m + n] + Decode(rest)
  {
    HexIs(c, m);
    HexIs(d, n);
    var s := [Code('%'), Code(c), Code(d)] + rest;
    assert s[3..] == rest;
  }

  /** Of a pair that is not two digits only the digits there are count. */
  lemma BrokenPairIsDecoded(c: Byte, d: Byte, n: nat, rest: Text)
    requires c != 0
    ensures !IsHex(c as char) && !IsHex(d as char) ==> Decode([Code('%'), c, d] + rest) == [0] + Decode(rest)
    ensures !IsHex(c as char) && Hex(d as char, n) ==> Decode([Code('%'), c, d] + rest) == [n] + Decode(rest)
    ensures Hex(c as char, n) && !IsHex(d as char) ==> Decode([Code('%'), c, d] + rest) == [n] + Decode(rest)
    ensures Hex(c as char, n) ==> Decode([Code('%'), c]) == [n]
    ensures Decode([Code('%')]) == [0]
  {
    var s := [Code('%'), c, d] + rest;
    assert s[3..] == rest;
    NoHexIs(c);
    NoHexIs(d);
    if Hex(c as char, n) { HexIs(c as char, n); }
    if Hex(d as char, n) { HexIs(d as char, n); }
  }

  /** One byte as any program may encode it: as it is, a blank as a plus sign, or as a pair of digits in either
      case, whether it needs that or not. */
  datatype Coded = Plain(c: Byte) | Plus | Digits(m: nat, n: nat, upperHigh: bool, upperLow: bool)

  predicate ProperCoded(x: Coded) {
    match x
    case Plain(c) => c != Code('%') && c != Code('+')
    case Plus => true
    case Digits(m, n, _, _) => m < 16 && n < 16
  }

  function HexChar(n: nat, upper: bool): char
    requires n < 16
    ensures Hex(HexChar(n, upper), n)
  {
    if upper then "0123456789ABCDEF"[n] else "0123456789abcdef"[n]
  }

  predicate AllProper(xs: seq<Coded>) {
    forall k :: 0 <= k < |xs| ==> ProperCoded(xs[k])
  }

  function WriteOne(x: Coded): Text
    requires ProperCoded(x)
  {
    match x
    case Plain(c) => [c]
    case Plus => [Code('+')]
    case Digits(m, n, upperHigh, upperLow) =>
      HexIs(HexChar(m, upperHigh), m);
      HexIs(HexChar(n, upperLow), n);
      [Code('%'), Code(HexChar(m, upperHigh)), Code(HexChar(n, upperLow))]
  }

  function Write(xs: seq<Coded>): Text
    requires AllProper(xs)
  {
    if xs == [] then [] else WriteOne(xs[0]) + Write(xs[1..])
  }

  function MeantByte(x: Coded): Byte
    requires ProperCoded(x)
  {
    match x
    case Plain(c) => c
    case Plus => Code(' ')
    case Digits(m, n, _, _) => 16 * m + n
  }

  function Meant(xs: seq<Coded>): Text
    requires AllProper(xs)
  {
    if xs == [] then [] else [MeantByte(xs[0])] + Meant(xs[1..])
  }

  lemma OneIsDecoded(x: Coded, rest: Text)
    requires ProperCoded(x)
    ensures Decode(WriteOne(x) + rest) == [MeantByte(x)] + Decode(rest)
  {
    match x
    case Plain(c) => assert ([c] + rest)[1..] == rest;
    case Plus => assert ([Code('+')] + rest)[1..] == rest;
    case Digits(m, n, upperHigh, upperLow) =>
      PairIsDecoded(HexChar(m, upperHigh), HexChar(n, upperLow), m, n, rest);
  }

  /** However a text was encoded, it is decoded to what was meant. */
  lemma {:induction false} WrittenIsDecoded(xs: seq<Coded>)
    requires AllProper(xs)
    ensures Decode(Write(xs)) == Meant(xs)
  {
    if xs != [] {
      hide Decode, WriteOne, MeantByte;
      OneIsDecoded(xs[0], Write(xs[1..]));
      WrittenIsDecoded(xs[1..]);
    }
  }

  // ---------------------------------------------------------------- splitting

  lemma {:induction false} NoAmpersand(s: Text, i: nat, j: nat)
    requires i <= j <= |s| && (forall k :: i <= k < j ==> s[k] != Code('&')) && (j < |s| ==> s[j] == Code('&'))
    ensures Ampersand(s, i) == j
    decreases j - i
  {
    if i < j { NoAmpersand(s, i + 1, j); }
  }

  /** A piece is split at its last equals sign; the name may hold others. */
  lemma SplitAtLastEquals(s: Text, e: nat, end: nat)
    requires e < end <= |s| && s[e] == Code('=') && (end < |s| ==> s[end] == Code('&'))
    requires (forall k :: 0 <= k < end ==> s[k] != Code('&')) && (forall k :: e < k < end ==> s[k] != Code('='))
    ensures Parse(s, 0) == [Pair(Visible(Decode(s[0..e])), Visible(Decode(s[e + 1..end])))] + Parse(s, end + 1)
  {
    hide Decode, Visible, Parse, Ampersand, LastEquals;
    NoAmpersand(s, 0, end);
    LastEqualsHere(s, 0, e, end);
    ParseStep(s, 0);
  }

  lemma {:induction false} LastEqualsHere(s: Text, i: nat, e: nat, j: nat)
    requires i <= e < j <= |s| && s[e] == Code('=') && forall k :: e < k < j ==> s[k] != Code('=')
    ensures LastEquals(s, i, j) == e
    decreases j
  {
    if e < j - 1 { LastEqualsHere(s, i, e, j - 1); }
  }

  /** A piece without an equals sign ends the parse, whatever comes after it. */
  lemma NoEqualsEnds(piece: Text, rest: Text)
    requires Code('&') !in piece && Code('=') !in piece && (rest == [] || rest[0] == Code('&'))
    ensures Parse(piece + rest, 0) == []
  {
    hide Decode, Visible;
    var s := piece + rest;
    forall k | 0 <= k < |piece| ensures s[k] != Code('&') && s[k] != Code('=') { assert s[k] == piece[k]; }
    NoAmpersand(s, 0, |piece|);
    NoLastEquals(s, 0, |piece|);
  }

  lemma {:induction false} NoLastEquals(s: Text, i: nat, j: nat)
    requires i <= j <= |s| && forall k :: i <= k < j ==> s[k] != Code('=')
    ensures LastEquals(s, i, j) == -1
    decreases j
  {
    if i < j { NoLastEquals(s, i, j - 1); }
  }

  /** Pairs are joined with equals signs and ampersands. */
  lemma JoinedPairs(p: Forms.Pair, q: Forms.Pair)
    ensures Join([p, q]) == Encode(p.name) + [Code('=')] + Encode(p.value) + [Code('&')]
                            + (Encode(q.name) + [Code('=')] + Encode(q.value))
  {
    assert [p, q][1..] == [q];
  }

  /** A NUL among the decoded characters cuts off what comes after it. */
  lemma {:induction false} NulCutsOff(s: Text, rest: Text)
    requires IsText(s)
    ensures Visible(s + [0] + rest) == s && Visible(s) == s
  {
    if s == [] {
      assert s + [0] + rest == [0] + rest;
    } else {
      assert s + [0] + rest == [s[0]] + (s[1..] + [0] + rest);
      NulCutsOff(s[1..], rest);
      assert s == [s[0]] + s[1..];
    }
  }
}

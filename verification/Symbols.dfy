/** Symbol tables: names as they are kept and compared, and the values added to them
    (libmhtml/symbols.c). */
module Symbols {
  import opened Bytes
  import CText

  // ---------------------------------------------------------------- names

  /** `symchar`: seven bits, in upper case. */
  function SymChar(c: int): (d: int)
    ensures 0 <= d < 128 && !(97 <= d <= 122)
  {
    var d := c % 128;
    if 97 <= d <= 122 then d - 32 else d
  }

  /** Two characters are the same to a symbol exactly if they are but for case, their eighth bits aside; letters
      are kept in upper case. */
  lemma SymCharIs(c: int, d: int)
    requires 0 <= c < 128 && 0 <= d < 128
    ensures SymChar(c) == SymChar(d) <==> CText.SameLetter(c as char, d as char)
    ensures SymChar(c + 128) == SymChar(c) && CText.SameLetter(SymChar(c) as char, c as char)
  {
  }

  /** A name as a symbol keeps it. */
  function Folded(name: Text): (stored: Text)
    ensures |stored| == |name| && forall k :: 0 <= k < |name| ==> stored[k] == SymChar(name[k])
  {
    seq(|name|, k requires 0 <= k < |name| => SymChar(name[k]))
  }

  predicate IsFolded(stored: Text) {
    forall k :: 0 <= k < |stored| ==> stored[k] < 128 && !(97 <= stored[k] <= 122)
  }

  // ---------------------------------------------------------------- comparing names

  /** A character in C, where characters are signed. */
  function Signed(c: Byte): int {
    if c < 128 then c else c - 256
  }

  /** Where the comparison stops: where the names part, or at the end of `name`. */
  function Parting(stored: Text, name: Text, i: nat): (j: nat)
    requires i <= |name| == |stored|
    ensures i <= j <= |name| && forall k :: i <= k < j ==> stored[k] == SymChar(name[k])
    ensures j < |name| ==> stored[j] != SymChar(name[j])
    decreases |name| - i
  {
    if i < |name| && SymChar(name[i]) == stored[i] then Parting(stored, name, i + 1) else i
  }

  /** What `symbol_match_name` says of a name as long as that of the symbol. */
  predicate Matches(stored: Text, name: Text)
    requires |stored| == |name|
  {
    var j := Parting(stored, name, 0);
    Signed(ByteAt(name, j)) + Signed(ByteAt(stored, j)) == 0
  }

  /** `symbol_match_name`. */
  method MatchName(stored: Text, name: Text) returns (r: bool)
    requires IsText(name) && |stored| == |name|
    ensures r == Matches(stored, name)
  {
    var i := 0;
    while SymChar(ByteAt(name, i)) == ByteAt(stored, i) && ByteAt(name, i) != 0
      invariant i <= |name| && Parting(stored, name, 0) == Parting(stored, name, i)
      decreases |name| - i
    {
      i := i + 1;
    }
    r := Signed(ByteAt(name, i)) + Signed(ByteAt(stored, i)) == 0;
  }

  /** A character that is taken for another: its negative, as a signed character, may stand in a stored name
      and is not what it is folded to. */
  predicate Confusing(c: Byte) {
    128 < c && 256 - c != SymChar(c) && !(97 <= 256 - c <= 122)
  }

  /** Comparing finds exactly the symbols with that name if and only if no character of it is confusing. */
  lemma MatchIsExact(name: Text)
    requires IsText(name)
    ensures (forall stored :: |stored| == |name| && IsFolded(stored) ==>
                                (Matches(stored, name) <==> stored == Folded(name)))
            <==> forall k :: 0 <= k < |name| ==> !Confusing(name[k])
  {
    forall stored | |stored| == |name| && IsFolded(stored)
      ensures stored == Folded(name) ==> Matches(stored, name)
      ensures Matches(stored, name) && stored != Folded(name) ==> exists k :: 0 <= k < |name| && Confusing(name[k])
    {
      var j := Parting(stored, name, 0);
      if j == |name| {
        assert stored == Folded(name);
      } else if Matches(stored, name) {
        assert Confusing(name[j]);
      }
    }
    if k :| 0 <= k < |name| && Confusing(name[k]) {
      var stored: Text := Folded(name)[k := 256 - name[k]];
      assert Parting(stored, name, 0) == k by {
        assert forall j :: 0 <= j < k ==> stored[j] == SymChar(name[j]);
        assert stored[k] != SymChar(name[k]);
      }
      assert IsFolded(stored) && Matches(stored, name) && stored != Folded(name);
    }
  }

  // ---------------------------------------------------------------- values

  /** The values of the symbol of that name; none, if there is no symbol. */
  function ValuesOf<N, V>(p: map<N, seq<V>>, name: N): seq<V> {
    if name in p then p[name] else []
  }

  /** `symbol_intern_in_package` and `symbol_add_value`. */
  function Added<N, V>(p: map<N, seq<V>>, name: N, value: V): map<N, seq<V>> {
    p[name := ValuesOf(p, name) + [value]]
  }
}

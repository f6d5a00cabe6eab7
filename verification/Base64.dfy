/** Base64 with optional line breaks (libmhtml/parser.c; section 4 of RFC 4648). */
module Base64 {
  import opened Slices

  /** A byte, as C's unsigned char. */
  type Byte = bv8

  const NEWLINE: Byte := 10
  const PAD: Byte := 61

  /** The alphabet: A-Z, a-z, 0-9, + and /. */
  function Letter(x: Byte): Byte
    requires x < 64
  {
    if x < 26 then x + 65
    else if x < 52 then x + 71
    else if x < 62 then x - 4
    else if x == 62 then 43
    else 47
  }

  /** `transtab`: the place of a letter in the alphabet, and 64 for every other byte. */
  function Place(c: Byte): Byte {
    if 65 <= c <= 90 then c - 65
    else if 97 <= c <= 122 then c - 71
    else if 48 <= c <= 57 then c + 4
    else if c == 43 then 62
    else if c == 47 then 63
    else 64
  }

  lemma PlaceOfLetter(x: Byte)
    requires x < 64
    ensures Place(Letter(x)) == x && Letter(x) != NEWLINE
  {
  }

  // ---------------------------------------------------------------- encoding

  function First(c1: Byte): (x: Byte)
    ensures x < 64
  {
    c1 >> 2
  }

  function Second(c1: Byte, c2: Byte): (x: Byte)
    ensures x < 64
  {
    ((c1 & 0x3) << 4) | ((c2 & 0xF0) >> 4)
  }

  function Third(c2: Byte, c3: Byte): (x: Byte)
    ensures x < 64
  {
    ((c2 & 0xF) << 2) | ((c3 & 0xC0) >> 6)
  }

  function Fourth(c3: Byte): (x: Byte)
    ensures x < 64
  {
    c3 & 0x3F
  }

  /** `output64chunk`. */
  function Chunk(c1: Byte, c2: Byte, c3: Byte, pads: nat): (s: seq<Byte>)
    ensures |s| == 4
  {
    [Letter(First(c1)), Letter(Second(c1, c2))]
    + if pads == 2 then [PAD, PAD]
      else if pads != 0 then [Letter(Third(c2, c3)), PAD]
      else [Letter(Third(c2, c3)), Letter(Fourth(c3))]
  }

  /** The newline after the chunk that makes `ct` characters, if there is one. */
  function LineBreak(ct: nat, shortlines: int): seq<Byte> {
    if shortlines != 0 && ct % shortlines == 0 then [NEWLINE] else []
  }

  /** The chunk for the first three bytes of `data`, or for the one or two that are left. */
  function FirstChunk(data: seq<Byte>): (s: seq<Byte>)
    requires data != []
    ensures |s| == 4
  {
    if |data| == 1 then Chunk(data[0], 0, 0, 2)
    else if |data| == 2 then Chunk(data[0], data[1], 0, 1)
    else Chunk(data[0], data[1], data[2], 0)
  }

  function Drop(s: seq<Byte>, n: nat): seq<Byte> {
    if n <= |s| then s[n..] else []
  }

  /** The text for `data` when `ct` characters have been written. */
  function EncodeFrom(data: seq<Byte>, ct: nat, shortlines: int): seq<Byte>
    decreases |data|
  {
    if data == [] then []
    else FirstChunk(data) + (LineBreak(ct + 4, shortlines) + EncodeFrom(Drop(data, 3), ct + 4, shortlines))
  }

  lemma EncodeStep(data: seq<Byte>, i: nat, ct: nat, shortlines: int)
    requires i <= |data|
    ensures EncodeFrom(data[i..], ct, shortlines) ==
            if i == |data| then []
            else FirstChunk(data[i..]) + LineBreak(ct + 4, shortlines)
                 + EncodeFrom(data[if i + 3 <= |data| then i + 3 else |data|..], ct + 4, shortlines)
  {
    if i < |data| {
      assert Drop(data[i..], 3) == data[if i + 3 <= |data| then i + 3 else |data|..];
    }
  }

  /** The chunk for the bytes at `i`, and where the next one starts. */
  method EncodeChunk(data: seq<Byte>, start: nat) returns (chunk: seq<Byte>, i: nat)
    requires start < |data|
    ensures chunk == FirstChunk(data[start..]) && i == if start + 3 <= |data| then start + 3 else |data|
  {
    hide Chunk;
    var c1 := data[start];
    i := start + 1;
    if i >= |data| {
      chunk := Chunk(c1, 0, 0, 2);
    } else {
      var c2 := data[i];
      i := i + 1;
      if i >= |data| {
        chunk := Chunk(c1, c2, 0, 1);
      } else {
        var c3 := data[i];
        i := i + 1;
        chunk := Chunk(c1, c2, c3, 0);
      }
    }
  }

  /** `mhtml_base64encode`. */
  method Encode(data: seq<Byte>, shortlines: int) returns (buffer: seq<Byte>)
    ensures buffer == EncodeFrom(data, 0, shortlines)
  {
    hide EncodeFrom, FirstChunk;
    buffer := [];
    var i, ct := 0, 0;
    assert data[0..] == data;
    while i < |data|
      invariant 0 <= i <= |data| && 0 <= ct
      invariant EncodeFrom(data, 0, shortlines) == buffer + EncodeFrom(data[i..], ct, shortlines)
    {
      EncodeStep(data, i, ct, shortlines);
      var chunk;
      chunk, i := EncodeChunk(data, i);
      ct := ct + 4;
      if shortlines != 0 && ct % shortlines == 0 {
        chunk := chunk + [NEWLINE];
      }
      buffer := buffer + chunk;
    }
    EncodeStep(data, i, ct, shortlines);
  }

  // ---------------------------------------------------------------- decoding

  /** `encoded[i]`, or the terminating NUL. */
  function At(e: seq<Byte>, i: nat): Byte {
    if i < |e| then e[i] else 0
  }

  /** How many letters stand at the start of `e`, newlines among them not counted. */
  function Letters(e: seq<Byte>): nat {
    if e == [] then 0
    else if e[0] == NEWLINE then Letters(e[1..])
    else if Place(e[0]) >= 64 then 0
    else 1 + Letters(e[1..])
  }

  function SkipNewlines(e: seq<Byte>): seq<Byte> {
    if e != [] && e[0] == NEWLINE then SkipNewlines(e[1..]) else e
  }

  /** The three bytes that four places in the alphabet make; bits that do not fit are lost. */
  function Bytes(p0: Byte, p1: Byte, p2: Byte, p3: Byte): seq<Byte> {
    [(p0 << 2) | (p1 >> 4), (p1 << 4) | (p2 >> 2), (p2 << 6) | p3]
  }

  function Block(e: seq<Byte>): (b: seq<Byte>)
    ensures |b| == 3
  {
    Bytes(Place(At(e, 0)), Place(At(e, 1)), Place(At(e, 2)), Place(At(e, 3)))
  }

  /** What the loop writes when `count` is one less than the number of letters left. */
  function Blocks(e: seq<Byte>, count: int): seq<Byte>
    decreases count
  {
    if count <= 0 then [] else Block(e) + Blocks(SkipNewlines(Drop(e, 4)), count - 4)
  }

  /** How many blocks that is. */
  function BlockCount(count: int): (n: int)
    ensures n >= 0
  {
    if count <= 0 then 0 else (count + 3) / 4
  }

  /** Where the terminator goes. */
  function Terminator(letters: nat): int {
    letters - BlockCount(letters - 1)
  }

  /** `mhtml_base64decode`: the bytes in front of the terminator. One letter more than whole groups
      of four is no Base64 text; the source would put its terminator outside its buffer. */
  function Decode(e: seq<Byte>): seq<Byte>
    requires Letters(e) % 4 != 1
  {
    BlocksLength(e, Letters(e) - 1);
    TerminatorFits(Letters(e));
    Blocks(e, Letters(e) - 1)[..Terminator(Letters(e))]
  }

  /** The terminator lies within the buffer unless one letter is left over. */
  lemma TerminatorFits(letters: nat)
    ensures 0 <= Terminator(letters) <= 3 * BlockCount(letters - 1) <==> letters % 4 != 1
  {
  }

  lemma BlocksLength(e: seq<Byte>, count: int)
    ensures |Blocks(e, count)| == 3 * BlockCount(count)
    decreases count
  {
    if count > 0 {
      BlocksLength(SkipNewlines(Drop(e, 4)), count - 4);
    }
  }

  // ---------------------------------------------------------------- the round trip

  lemma FullChunk(c1: Byte, c2: Byte, c3: Byte)
    ensures Bytes(First(c1), Second(c1, c2), Third(c2, c3), Fourth(c3)) == [c1, c2, c3]
  {
  }

  lemma ChunkOfTwo(c1: Byte, c2: Byte)
    ensures Bytes(First(c1), Second(c1, c2), Third(c2, 0), 64)[..2] == [c1, c2]
  {
  }

  lemma ChunkOfOne(c1: Byte)
    ensures Bytes(First(c1), Second(c1, 0), 64, 64)[..1] == [c1]
  {
  }

  /** A chunk in front of anything decodes to the bytes it was made from, and what padding there is
      only spoils the bytes after them. */
  lemma BlockOfChunk(data: seq<Byte>, rest: seq<Byte>)
    requires data != []
    ensures var n := if |data| < 3 then |data| else 3; Block(FirstChunk(data) + rest)[..n] == data[..n]
    ensures Letters(FirstChunk(data) + rest) == if |data| < 3 then |data| + 1 else 4 + Letters(rest)
    ensures FirstChunk(data)[0] != NEWLINE
  {
    var c1 := data[0];
    var c2 := if |data| > 1 then data[1] else 0;
    var c3 := if |data| > 2 then data[2] else 0;
    PlaceOfLetter(First(c1));
    PlaceOfLetter(Second(c1, c2));
    PlaceOfLetter(Third(c2, c3));
    PlaceOfLetter(Fourth(c3));
    assert Place(PAD) == 64 && PAD != NEWLINE;
    if |data| == 1 { ChunkOfOne(c1); } else if |data| == 2 { ChunkOfTwo(c1, c2); } else { FullChunk(c1, c2, c3); }
    var e := FirstChunk(data) + rest;
    hide Letter, Place, First, Second, Third, Fourth, Bytes, Letters;
    assert Block(e)[..3] == Block(e);
    FourLetters(e);
    assert e[4..] == rest;
  }

  lemma LettersStep(c: Byte, rest: seq<Byte>)
    requires c != NEWLINE
    ensures Letters([c] + rest) == if Place(c) >= 64 then 0 else 1 + Letters(rest)
  {
    hide Place;
    assert ([c] + rest)[1..] == rest;
  }

  /** Counting letters over the first four characters. */
  lemma FourLetters(e: seq<Byte>)
    requires |e| >= 4 && (forall k :: 0 <= k < 4 ==> e[k] != NEWLINE) && Place(e[0]) < 64 && Place(e[1]) < 64
    ensures Letters(e) == if Place(e[2]) >= 64 then 2 else if Place(e[3]) >= 64 then 3 else 4 + Letters(e[4..])
  {
    hide Place, Letters;
    LettersStep(e[3], e[4..]);
    LettersStep(e[2], [e[3]] + e[4..]);
    LettersStep(e[1], [e[2]] + ([e[3]] + e[4..]));
    LettersStep(e[0], [e[1]] + ([e[2]] + ([e[3]] + e[4..])));
    assert e == [e[0]] + ([e[1]] + ([e[2]] + ([e[3]] + e[4..])));
  }

  lemma LineBreakIsSkipped(ct: nat, shortlines: int, rest: seq<Byte>)
    requires rest != [] ==> rest[0] != NEWLINE
    ensures SkipNewlines(LineBreak(ct, shortlines) + rest) == rest
    ensures Letters(LineBreak(ct, shortlines) + rest) == Letters(rest)
  {
    var e := LineBreak(ct, shortlines) + rest;
    if LineBreak(ct, shortlines) == [] {
      assert e == rest;
    } else {
      assert e[1..] == rest;
    }
  }

  lemma BlocksStep(e: seq<Byte>, count: int)
    ensures count <= 0 ==> Blocks(e, count) == []
    ensures count > 0 ==> Blocks(e, count) == Block(e) + Blocks(SkipNewlines(Drop(e, 4)), count - 4)
  {
    hide Block;
  }

  /** What the decoder makes of `e` starts with `data` and puts the terminator after it. */
  predicate Decodes(e: seq<Byte>, data: seq<Byte>) {
    var n := Letters(e);
    && n % 4 != 1 && Terminator(n) == |data| <= |Blocks(e, n - 1)| && Blocks(e, n - 1)[..|data|] == data
  }

  lemma TerminatorMoves(letters: nat)
    ensures Terminator(letters + 4) == Terminator(letters) + 3
  {
  }

  lemma PrefixOfConcat(block: seq<Byte>, blocks: seq<Byte>, data: seq<Byte>)
    requires |block| == 3 <= |data| && block == data[..3]
    requires |data| - 3 <= |blocks| && blocks[..|data| - 3] == data[3..]
    ensures (block + blocks)[..|data|] == data
  {
    assert (block + blocks)[..|data|] == block + blocks[..|data| - 3];
    assert data == data[..3] + data[3..];
  }

  /** The first chunk is one block, and the rest is decoded after it. */
  lemma FirstBlock(data: seq<Byte>, rest: seq<Byte>)
    requires |data| >= 3
    ensures var e := FirstChunk(data) + rest;
            && Letters(e) == 4 + Letters(rest)
            && Blocks(e, 3 + Letters(rest)) == data[..3] + Blocks(SkipNewlines(rest), Letters(rest) - 1)
  {
    hide FirstChunk, Block, Letters, SkipNewlines, Blocks, Drop;
    var e := FirstChunk(data) + rest;
    BlockOfThree(data, rest);
    DropFirst(FirstChunk(data), rest);
    BlocksStep(e, 3 + Letters(rest));
  }

  lemma BlockOfThree(data: seq<Byte>, rest: seq<Byte>)
    requires |data| >= 3
    ensures Block(FirstChunk(data) + rest) == data[..3] && Letters(FirstChunk(data) + rest) == 4 + Letters(rest)
  {
    hide FirstChunk, Block, Letters;
    BlockOfChunk(data, rest);
    var block := Block(FirstChunk(data) + rest);
    assert block[..3] == block;
  }

  lemma DropFirst(chunk: seq<Byte>, rest: seq<Byte>)
    ensures Drop(chunk + rest, |chunk|) == rest
  {
  }

  lemma DecodesFirst(data: seq<Byte>, rest: seq<Byte>, tail: seq<Byte>)
    requires |data| >= 3 && SkipNewlines(rest) == tail && Letters(rest) == Letters(tail) && Decodes(tail, data[3..])
    ensures Decodes(FirstChunk(data) + rest, data)
  {
    hide FirstChunk, Letters, SkipNewlines, Blocks, Terminator, BlockCount;
    FirstBlock(data, rest);
    TerminatorMoves(Letters(tail));
    PrefixOfConcat(data[..3], Blocks(tail, Letters(tail) - 1), data);
  }

  lemma DecodesShort(data: seq<Byte>, rest: seq<Byte>)
    requires 0 < |data| < 3
    ensures Decodes(FirstChunk(data) + rest, data)
  {
    var e := FirstChunk(data) + rest;
    BlockOfChunk(data, rest);
    BlocksStep(e, |data|);
    BlocksStep(SkipNewlines(Drop(e, 4)), |data| - 4);
    hide FirstChunk, Block, Letters, SkipNewlines, Blocks;
    assert data[..|data|] == data;
  }

  /** The letters and blocks of encoded data. */
  lemma {:induction false} DecodesTo(data: seq<Byte>, ct: nat, shortlines: int)
    ensures var e := EncodeFrom(data, ct, shortlines); Decodes(e, data) && (e != [] ==> e[0] != NEWLINE)
    decreases |data|
  {
    if data != [] {
      var tail := EncodeFrom(Drop(data, 3), ct + 4, shortlines);
      var rest := LineBreak(ct + 4, shortlines) + tail;
      DecodesTo(Drop(data, 3), ct + 4, shortlines);
      LineBreakIsSkipped(ct + 4, shortlines, tail);
      BlockOfChunk(data, rest);
      if |data| < 3 {
        DecodesShort(data, rest);
      } else {
        DecodesFirst(data, rest, tail);
      }
    }
  }

  /** Decoding what was encoded gives back the data, for every line width. */
  lemma EncodeThenDecode(data: seq<Byte>, shortlines: int)
    ensures var e := EncodeFrom(data, 0, shortlines); Letters(e) % 4 != 1 && Decode(e) == data
  {
    hide EncodeFrom, Letters, Blocks, Terminator;
    DecodesTo(data, 0, shortlines);
  }

  // ---------------------------------------------------------------- the decoding loops

  lemma LettersAt(e: seq<Byte>, i: nat)
    requires i <= |e|
    ensures Letters(e[i..]) ==
            if i == |e| then 0
            else if e[i] == NEWLINE then Letters(e[i + 1..])
            else if Place(e[i]) >= 64 then 0
            else 1 + Letters(e[i + 1..])
  {
    hide Place;
    if i < |e| { assert e[i..][1..] == e[i + 1..]; }
  }

  /** The first loop of `mhtml_base64decode`: counts the letters. */
  method CountLetters(encoded: seq<Byte>) returns (letters: int)
    ensures letters == Letters(encoded)
  {
    hide Letters, Place;
    var i, newlines := 0, 0;
    assert encoded[0..] == encoded;
    while i < |encoded| && (encoded[i] == NEWLINE || Place(encoded[i]) < 64)
      invariant 0 <= newlines <= i <= |encoded|
      invariant Letters(encoded) == i - newlines + Letters(encoded[i..])
    {
      LettersAt(encoded, i);
      if encoded[i] == NEWLINE {
        newlines := newlines + 1;
      }
      i := i + 1;
    }
    LettersAt(encoded, i);
    letters := i - newlines;
  }

  /** The newlines at `i` are stepped over. */
  method StepOverNewlines(encoded: seq<Byte>, start: nat) returns (i: nat)
    ensures Drop(encoded, i) == SkipNewlines(Drop(encoded, start))
  {
    i := start;
    while i < |encoded| && encoded[i] == NEWLINE
      invariant SkipNewlines(Drop(encoded, start)) == SkipNewlines(Drop(encoded, i))
    {
      assert encoded[i..][1..] == encoded[i + 1..];
      i := i + 1;
    }
  }

  method WriteBlock(decoded: array<Byte>, i: nat, encoded: seq<Byte>, at: nat)
    requires i + 3 <= decoded.Length
    modifies decoded
    ensures decoded[..i + 3] == old(decoded[..i]) + Block(Drop(encoded, at))
  {
    hide Place;
    var e := Drop(encoded, at);
    decoded[i] := (Place(At(e, 0)) << 2) | (Place(At(e, 1)) >> 4);
    decoded[i + 1] := (Place(At(e, 1)) << 4) | (Place(At(e, 2)) >> 2);
    decoded[i + 2] := (Place(At(e, 2)) << 6) | Place(At(e, 3));
  }

  /** `mhtml_base64decode`: the buffer it allots, and where it puts the terminator in it. */
  method DecodeText(encoded: seq<Byte>) returns (decoded: array<Byte>, i: nat)
    requires Letters(encoded) % 4 != 1
    ensures i < decoded.Length && decoded[..i] == Decode(encoded) && decoded[i] == 0
  {
    hide Letters, Blocks, Block, BlockCount, SkipNewlines, Drop;
    var letters := CountLetters(encoded);
    var count: int := letters - 1;
    ghost var start, k := count, 0;
    var decodedSize := BlockCount(count) * 3;
    decoded := new Byte[1 + decodedSize];
    i := 0;
    var at := 0;
    BlocksLength(encoded, start);
    TerminatorFits(letters);
    DropTwice(encoded, 0);
    assert decoded[..0] == [];
    while count > 0
      invariant 0 <= k && i == 3 * k && count == start - 4 * k && k + BlockCount(count) == BlockCount(start)
      invariant 0 <= at && Blocks(encoded, start) == decoded[..i] + Blocks(Drop(encoded, at), count)
    {
      BlocksStep(Drop(encoded, at), count);
      BlockCountStep(count);
      Regroup(decoded[..i], Block(Drop(encoded, at)), Blocks(SkipNewlines(Drop(Drop(encoded, at), 4)), count - 4));
      WriteBlock(decoded, i, encoded, at);
      DropTwice(encoded, at);
      at := StepOverNewlines(encoded, at + 4);
      i := i + 3;
      count := count - 4;
      k := k + 1;
    }
    BlocksStep(Drop(encoded, at), count);
    BlockCountStep(count);
    ghost var blocks := decoded[..i];
    i := i + (count + 1);
    assert decoded[..i] == blocks[..i];
    decoded[i] := 0;
  }

  lemma BlockCountStep(count: int)
    ensures BlockCount(count) == if count <= 0 then 0 else 1 + BlockCount(count - 4)
  {
  }

  lemma DropTwice(e: seq<Byte>, at: nat)
    ensures Drop(e, 0) == e && Drop(Drop(e, at), 4) == Drop(e, at + 4)
  {
  }
}

/** The alphabet and the bits of Base64 (libmhtml/parser.c; section 4 of RFC 4648). */
module Base64Text {
  import opened Base64
  import opened Slices

  /** A-Z, a-z, 0-9, + and /, in ASCII. */
  lemma AlphabetIs()
    ensures [Letter(0), Letter(1), Letter(2), Letter(3), Letter(4), Letter(5), Letter(6), Letter(7), Letter(8),
             Letter(9), Letter(10), Letter(11), Letter(12), Letter(13), Letter(14), Letter(15), Letter(16),
             Letter(17), Letter(18), Letter(19), Letter(20), Letter(21), Letter(22), Letter(23), Letter(24),
             Letter(25)]
         == [65, 66, 67, 68, 69, 70, 71, 72, 73, 74, 75, 76, 77, 78, 79, 80, 81, 82, 83, 84, 85, 86, 87, 88, 89, 90]
    ensures [Letter(26), Letter(27), Letter(28), Letter(29), Letter(30), Letter(31), Letter(32), Letter(33),
             Letter(34), Letter(35), Letter(36), Letter(37), Letter(38), Letter(39), Letter(40), Letter(41),
             Letter(42), Letter(43), Letter(44), Letter(45), Letter(46), Letter(47), Letter(48), Letter(49),
             Letter(50), Letter(51)]
         == [97, 98, 99, 100, 101, 102, 103, 104, 105, 106, 107, 108, 109, 110, 111, 112, 113, 114, 115, 116, 117,
             118, 119, 120, 121, 122]
    ensures [Letter(52), Letter(53), Letter(54), Letter(55), Letter(56), Letter(57), Letter(58), Letter(59),
             Letter(60), Letter(61), Letter(62), Letter(63)]
         == [48, 49, 50, 51, 52, 53, 54, 55, 56, 57, 43, 47]
  {
  }

  /** The decoder takes exactly the letters of the alphabet for letters. */
  lemma PlaceIsExact(c: Byte)
    ensures Place(c) < 64 <==> exists x: Byte :: x < 64 && Letter(x) == c
    ensures Place(c) < 64 ==> Letter(Place(c)) == c
  {
    var p := Place(c);
    assert p < 64 ==> Letter(p) == c;
    forall x: Byte | x < 64 && Letter(x) == c ensures Place(c) < 64 {
      PlaceOfLetter(x);
    }
  }

  /** The places of the four letters, six bits each, are the three bytes, eight bits each. */
  lemma BitsAreKept(c1: Byte, c2: Byte, c3: Byte)
    ensures ((First(c1) as bv32) << 18) | ((Second(c1, c2) as bv32) << 12) | ((Third(c2, c3) as bv32) << 6)
            | (Fourth(c3) as bv32)
         == ((c1 as bv32) << 16) | ((c2 as bv32) << 8) | (c3 as bv32)
  {
  }

  lemma EncodeFirst(data: seq<Byte>, ct: nat)
    requires data != []
    ensures EncodeFrom(data, ct, 0) == FirstChunk(data) + EncodeFrom(Drop(data, 3), ct + 4, 0)
  {
    hide FirstChunk;
    var rest := EncodeFrom(Drop(data, 3), ct + 4, 0);
    assert LineBreak(ct + 4, 0) + rest == rest;
  }

  lemma EncodeLast(data: seq<Byte>, ct: nat)
    requires 0 < |data| <= 3
    ensures EncodeFrom(data, ct, 0) == FirstChunk(data)
  {
    hide FirstChunk;
    EncodeFirst(data, ct);
    assert Drop(data, 3) == [] && EncodeFrom([], ct + 4, 0) == [];
  }

  /** The vectors of section 10 of RFC 4648: up to three bytes of "foo" make one chunk. */
  lemma ShortVectors()
    ensures FirstChunk([102]) == [90, 103, 61, 61]
    ensures FirstChunk([102, 111]) == [90, 109, 56, 61]
    ensures FirstChunk([102, 111, 111]) == [90, 109, 57, 118]
  {
    BitsOfFoo();
  }

  lemma BitsOfFoo()
    ensures Letter(First(102)) == 90 && Letter(Second(102, 0)) == 103 && Letter(Second(102, 111)) == 109
    ensures Letter(Third(111, 0)) == 56 && Letter(Third(111, 111)) == 57 && Letter(Fourth(111)) == 118
  {
  }

  lemma BitsOfBar()
    ensures Letter(First(98)) == 89 && Letter(Second(98, 0)) == 103 && Letter(Second(98, 97)) == 109
    ensures Letter(Third(97, 0)) == 69 && Letter(Third(97, 114)) == 70 && Letter(Fourth(114)) == 121
  {
  }

  lemma LongVectors()
    ensures FirstChunk([98]) == [89, 103, 61, 61]
    ensures FirstChunk([98, 97]) == [89, 109, 69, 61]
    ensures FirstChunk([98, 97, 114]) == [89, 109, 70, 121]
  {
    BitsOfBar();
  }

  /** "f" to "foobar". */
  lemma Vectors()
    ensures EncodeFrom([], 0, 0) == []
    ensures EncodeFrom([102], 0, 0) == [90, 103, 61, 61]
    ensures EncodeFrom([102, 111], 0, 0) == [90, 109, 56, 61]
    ensures EncodeFrom([102, 111, 111], 0, 0) == [90, 109, 57, 118]
    ensures EncodeFrom([102, 111, 111, 98], 0, 0) == [90, 109, 57, 118] + [89, 103, 61, 61]
    ensures EncodeFrom([102, 111, 111, 98, 97], 0, 0) == [90, 109, 57, 118] + [89, 109, 69, 61]
    ensures EncodeFrom([102, 111, 111, 98, 97, 114], 0, 0) == [90, 109, 57, 118] + [89, 109, 70, 121]
  {
    hide EncodeFrom, FirstChunk;
    NothingEncoded();
    ShortVectors();
    LongVectors();
    EncodeLast([102], 0);
    EncodeLast([102, 111], 0);
    EncodeLast([102, 111, 111], 0);
    TwoChunks([98]);
    TwoChunks([98, 97]);
    TwoChunks([98, 97, 114]);
    var foo: seq<Byte>, b: seq<Byte>, ba: seq<Byte>, bar: seq<Byte> := [102, 111, 111], [98], [98, 97], [98, 97, 114];
    assert foo + b == [102, 111, 111, 98] && foo + ba == [102, 111, 111, 98, 97];
    assert foo + bar == [102, 111, 111, 98, 97, 114];
  }

  lemma NothingEncoded()
    ensures EncodeFrom([], 0, 0) == []
  {
  }

  lemma FirstThree(data: seq<Byte>)
    requires |data| > 3
    ensures FirstChunk(data) == FirstChunk(data[..3])
  {
    hide Chunk;
  }

  lemma TwoChunks(rest: seq<Byte>)
    requires 0 < |rest| <= 3
    ensures EncodeFrom([102, 111, 111] + rest, 0, 0) == [90, 109, 57, 118] + FirstChunk(rest)
  {
    var data := [102, 111, 111] + rest;
    assert data[0] == 102 && data[1] == data[2] == 111;
    FirstThree(data);
    assert data[..3] == [102, 111, 111] && Drop(data, 3) == rest;
    hide EncodeFrom, FirstChunk;
    ShortVectors();
    EncodeFirst(data, 0);
    EncodeLast(rest, 4);
  }

  /** Newlines are passed over, and the first byte that is neither a newline nor a letter ends the text. */
  lemma {:induction false} LettersEnd(text: seq<Byte>, c: Byte, rest: seq<Byte>)
    requires forall k :: 0 <= k < |text| ==> text[k] == NEWLINE || Place(text[k]) < 64
    requires c != NEWLINE && Place(c) >= 64
    ensures Letters(text + [c] + rest) == Letters(text) && (NEWLINE !in text ==> Letters(text) == |text|)
  {
    hide Place;
    if text == [] {
      assert text + [c] + rest == [c] + rest;
    } else {
      LettersEnd(text[1..], c, rest);
      assert text == [text[0]] + text[1..];
      assert (text + [c] + rest)[1..] == text[1..] + [c] + rest;
      NewlineIsNoLetter();
    }
  }

  lemma NewlineIsNoLetter()
    ensures Place(NEWLINE) >= 64
  {
  }

  // ---------------------------------------------------------------- lines

  /** A text in lines of `n` characters, `room` of which are left in the first: a newline after every line that
      is full. */
  function InLines(text: seq<Byte>, room: nat, n: nat): seq<Byte>
    requires room > 0 && n > 0
    decreases |text|
  {
    if |text| < room then text else text[..room] + ([NEWLINE] + InLines(text[room..], n, n))
  }

  lemma InLinesStep(chunk: seq<Byte>, rest: seq<Byte>, room: nat, n: nat)
    requires |chunk| == 4 <= room && n > 0
    ensures InLines(chunk + rest, room, n)
         == if room == 4 then chunk + ([NEWLINE] + InLines(rest, n, n)) else chunk + InLines(rest, room - 4, n)
  {
    var text := chunk + rest;
    if room == 4 {
      assert text[..4] == chunk && text[4..] == rest;
    } else if |text| >= room {
      assert text[..room] == chunk + rest[..room - 4] && text[room..] == rest[room - 4..];
      Regroup(chunk, rest[..room - 4], [NEWLINE] + InLines(rest[room - 4..], n, n));
    }
  }

  /** For a width of whole groups, the text with line breaks is that without them, put in lines of this width. */
  lemma {:induction false} EncodedInLines(data: seq<Byte>, ct: nat, room: nat, n: nat)
    requires n % 4 == room % 4 == 0 && 0 < room <= n && ct % n == n - room
    ensures EncodeFrom(data, ct, n) == InLines(EncodeFrom(data, ct, 0), room, n)
    decreases |data|
  {
    hide EncodeFrom, FirstChunk, InLines;
    if data == [] {
      NothingInLines(ct, room, n);
    } else {
      var room' := if room == 4 then n else room - 4;
      NextInLine(ct, n, n - room);
      EncodeFirst(data, ct);
      EncodeWithBreak(data, ct, n);
      EncodedInLines(Drop(data, 3), ct + 4, room', n);
      InLinesStep(FirstChunk(data), EncodeFrom(Drop(data, 3), ct + 4, 0), room, n);
    }
  }

  lemma NothingInLines(ct: nat, room: nat, n: nat)
    requires room > 0 && n > 0
    ensures EncodeFrom([], ct, n) == [] == InLines(EncodeFrom([], ct, 0), room, n)
  {
  }

  lemma EncodeWithBreak(data: seq<Byte>, ct: nat, n: int)
    requires data != [] && n > 0
    ensures EncodeFrom(data, ct, n) ==
            if (ct + 4) % n == 0 then FirstChunk(data) + ([NEWLINE] + EncodeFrom(Drop(data, 3), ct + 4, n))
            else FirstChunk(data) + EncodeFrom(Drop(data, 3), ct + 4, n)
  {
    hide FirstChunk;
    var rest := EncodeFrom(Drop(data, 3), ct + 4, n);
    assert [] + rest == rest;
  }

  lemma NextInLine(ct: nat, n: nat, r: nat)
    requires n > 0 && ct % n == r && r + 4 <= n
    ensures (ct + 4) % n == if r + 4 == n then 0 else r + 4
  {
    var q := ct / n;
    assert ct == n * q + r;
    if r + 4 == n {
      assert n * (q + 1) == n * q + n;
      RemainderIs(ct + 4, n, q + 1, 0);
    } else {
      RemainderIs(ct + 4, n, q, r + 4);
    }
  }

  lemma RemainderIs(x: int, n: int, q: int, r: int)
    requires 0 <= r < n && x == n * q + r
    ensures x % n == r
  {
    var d := x / n - q;
    assert x == n * (x / n) + x % n;
    assert n * (x / n) == n * q + n * d;
    ProductIsApart(n, d);
  }

  lemma ProductIsApart(n: int, d: int)
    requires n > 0
    ensures (d >= 1 ==> n * d >= n) && (d <= -1 ==> n * d <= -n)
  {
    if d >= 1 {
      assert n * d == n + n * (d - 1);
    } else if d <= -1 {
      assert n * d == -n + n * (d + 1);
    }
  }
}

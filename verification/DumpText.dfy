/** The bytes of a dump, one by one (libmhtml/symdump.c). */
module DumpText {
  import opened Bytes
  import opened Options
  import opened SymbolFormat
  import opened Slices

  /** Integers are written lowest byte first, negative ones in two's complement. */
  lemma IntIsLittleEndian(b0: Byte, b1: Byte, b2: Byte, b3: Byte)
    ensures IntBytes(b0 + 0x100 * b1 + 0x1_0000 * b2 + 0x100_0000 * b3) == [b0, b1, b2, b3]
    ensures IntBytes(b0 + 0x100 * b1 + 0x1_0000 * b2 + 0x100_0000 * b3 - 0x1_0000_0000) == [b0, b1, b2, b3]
    ensures IntOf(b0, b1, b2, b3) == b0 + 0x100 * b1 + 0x1_0000 * b2 + 0x100_0000 * (if b3 < 128 then b3 else b3 - 256)
  {
    BytesOf(b0, b1, b2, b3);
    BytesOf(b0, b1, b2, b3 - 0x100);
  }

  lemma LowestByte(l: Byte, h: int)
    ensures (l + 0x100 * h) % 0x100 == l && (l + 0x100 * h) / 0x100 == h
  {
  }

  lemma BytesOf(b0: Byte, b1: Byte, b2: Byte, h: int)
    ensures IntBytes(b0 + 0x100 * b1 + 0x1_0000 * b2 + 0x100_0000 * h) == [b0, b1, b2, h % 0x100]
  {
    LowestByte(b0, b1 + 0x100 * (b2 + 0x100 * h));
    LowestByte(b1, b2 + 0x100 * h);
    LowestByte(b2, h);
  }

  lemma SmallInt(n: Byte)
    ensures IntBytes(n) == [n, 0, 0, 0]
  {
    IntIsLittleEndian(n, 0, 0, 0);
  }

  lemma OneByteString(c: Byte)
    ensures ShortBytes([c]) == [1, c] && LongBytes([c]) == [1, 0, 0, 0, c]
  {
    SmallInt(1);
    assert [c][..1] == [c];
  }

  /** The record of a variable `A` with the values `x` and the empty string, which has the mark and another flag:
      its name, its type, its flags without the mark, and its values, the empty one as a NUL. */
  lemma VariableExample()
    ensures SymBytes(Sym([65], 0x21, Strings([[120], []])))
         == [1, 65] + ([0] + ([1, 0, 0, 0] + ([2, 0, 0, 0] + ([1, 0, 0, 0, 120] + [1, 0, 0, 0, 0]))))
  {
    var x, e: Text := [120], [];
    OneByteString(65);
    OneByteString(120);
    OneByteString(0);
    SmallInt(1);
    SmallInt(2);
    assert Cleared(Cleared(0x21, FLAGGED), MACH_RES) == 1;
    assert [x, e][1..] == [e] && [e][1..] == [];
    assert ValueBytes(e) + [] == ValueBytes(e) && ValuesBytes([e]) == ValueBytes(e);
    assert ValuesBytes([x, e]) == ValueBytes(x) + ValuesBytes([e]);
  }

  /** The record of a function `F` of kind 2 in package `P` with the parameter `p` and the body `b`. */
  lemma FunctionExample()
    ensures SymBytes(Sym([70], 0, Function(UserFunction(2, 5, 9, [70], Some([98]), Some([80]), Some([[112]]), []))))
         == [1, 70] + ([3] + ([0, 0, 0, 0] + ([2, 5] + ([1, 80] + (([1] + [1, 112]) + [1, 0, 0, 0, 98])))))
  {
    var p: Text := [112];
    OneByteString(70);
    OneByteString(80);
    OneByteString(98);
    OneByteString(112);
    SmallInt(0);
    assert Cleared(Cleared(0, FLAGGED), MACH_RES) == 0;
    assert [p][..1] == [p] && [p][1..] == [];
    assert ShortsBytes([p]) == ShortBytes(p) + [];
    assert ShortBytes(p) + [] == ShortBytes(p);
  }

  /** A package `P` with one primitive `Q`: its name, the number of records, and the record, which has nothing
      after its flags. */
  lemma PackageExample()
    ensures PackageBytes(Dump([80], [Sym([81], 0, Primitive(7))]))
         == [1, 80] + ([1, 0, 0, 0] + ([1, 81] + ([1] + [0, 0, 0, 0])))
  {
    OneByteString(80);
    OneByteString(81);
    SmallInt(0);
    SmallInt(1);
    var q := Sym([81], 0, Primitive(7));
    assert Cleared(Cleared(0, FLAGGED), MACH_RES) == 0;
    assert IntBytes(0) + ContentBytes(q.content) == IntBytes(0);
    assert SymsBytes([q]) == SymBytes(q) + [] && SymBytes(q) + [] == SymBytes(q);
  }
}

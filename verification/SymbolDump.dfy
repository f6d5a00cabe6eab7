/** Writing packages of variables to a stream of bytes and reading them back (libmhtml/symdump.c). */
module SymbolDump {
  import opened Bytes
  import opened Options
  import opened Slices
  import opened SymbolFormat

  // ---------------------------------------------------------------- the streams

  /** A string buffer that is used like a file: `|buffer|` is its `bsize`. */
  class Stream {
    var buffer: Text
    var bindex: nat

    ghost predicate Valid()
      reads this
    {
      bindex <= |buffer|
    }

    /** What has been written or read. */
    ghost function Before(): Text
      reads this
      requires Valid()
    {
      buffer[..bindex]
    }

    /** What is still to be read. */
    ghost function Rest(): Text
      reads this
      requires Valid()
    {
      buffer[bindex..]
    }

    constructor ()
      ensures Valid() && buffer == [] && bindex == 0
    {
      buffer, bindex := [], 0;
    }

    /** `symdump_write_string_data`: the buffer grows when the data would fill it. */
    method Write(data: Text) returns (written: nat)
      requires Valid()
      modifies this
      ensures Valid() && Before() == old(Before()) + data && written == |data|
      ensures bindex == old(bindex) + |data| && |buffer| >= old(|buffer|)
    {
      if |data| + bindex >= |buffer| {
        buffer := buffer + seq(|data| + 100, _ => 0);
      }
      ghost var start := bindex;
      var i := 0;
      while i < |data|
        invariant 0 <= i <= |data| && bindex == start + i && start + |data| <= |buffer| && |buffer| >= old(|buffer|)
        invariant buffer[..bindex] == old(buffer[..bindex]) + data[..i]
      {
        ghost var before := buffer[..bindex];
        buffer := buffer[bindex := data[i]];
        bindex := bindex + 1;
        i := i + 1;
        assert buffer[..bindex] == before + [data[i - 1]] && data[..i] == data[..i - 1] + [data[i - 1]];
      }
      written := i;
    }

    /** `symdump_read_string_data`: all of the bytes, or none if there are too few. */
    method Read(len: nat) returns (data: Text)
      requires Valid()
      modifies this`bindex
      ensures Valid()
      ensures if len <= old(|Rest()|) then data == old(Rest())[..len] && Rest() == old(Rest())[len..]
              else data == [] && Rest() == old(Rest())
    {
      data := [];
      if bindex + len <= |buffer| {
        ghost var start := bindex;
        var i := 0;
        while i < len
          invariant 0 <= i <= len && bindex == start + i <= start + len <= |buffer| && data == buffer[start..bindex]
        {
          data := data + [buffer[bindex]];
          bindex := bindex + 1;
          i := i + 1;
        }
      }
    }

    /** `symdump_seek_string_data`. */
    method Seek(offset: int)
      requires Valid()
      modifies this`bindex
      ensures Valid() && bindex == if 0 <= offset <= |buffer| then offset else old(bindex)
    {
      if 0 <= offset <= |buffer| {
        bindex := offset;
      }
    }

    /** What `symdump_close_string_data` does to the buffer: it ends where it has been written to. */
    method Trim()
      requires Valid()
      modifies this`buffer
      ensures Valid() && Rest() == [] && Before() == old(Before()) && buffer == old(Before())
    {
      buffer := buffer[..bindex];
    }
  }

  /** The pool of string buffers behind the descriptors from `STRING_FD_THRESHOLD` on. */
  class Pool {
    var slots: seq<Stream?>
    var index: nat

    const STRING_FD_THRESHOLD := 1024

    ghost predicate Valid()
      reads this
    {
      && index <= |slots|
      && (forall k :: index <= k < |slots| ==> slots[k] == null)
      && forall j, k :: 0 <= j < k < |slots| && slots[j] != null ==> slots[j] != slots[k]
    }

    /** The stream behind a descriptor, null when it is not open. */
    ghost function StreamOf(sd: int): Stream?
      reads this
    {
      if 0 <= sd - STRING_FD_THRESHOLD < |slots| then slots[sd - STRING_FD_THRESHOLD] else null
    }

    constructor ()
      ensures Valid() && forall sd :: StreamOf(sd) == null
    {
      slots, index := [], 0;
    }

    /** `buffer_of_sd`. */
    method BufferOf(sd: int) returns (result: Stream?)
      requires Valid()
      ensures result == StreamOf(sd)
    {
      result := null;
      var k := sd - STRING_FD_THRESHOLD;
      if 0 <= k < index {
        result := slots[k];
      }
    }

    /** `symdump_open_string_data`: the lowest descriptor that is not in use, with an empty buffer. */
    method OpenStream() returns (sd: int)
      requires Valid()
      modifies this
      ensures Valid() && old(StreamOf(sd)) == null && StreamOf(sd) != null
      ensures fresh(StreamOf(sd)) && StreamOf(sd).Valid() && StreamOf(sd).buffer == []
      ensures forall other :: other != sd ==> StreamOf(other) == old(StreamOf(other))
      ensures forall lower :: STRING_FD_THRESHOLD <= lower < sd ==> StreamOf(lower) != null
    {
      if index + 2 > |slots| {
        slots := slots + [null, null, null, null];
      }
      var i := 0;
      while slots[i] != null
        invariant 0 <= i <= index < |slots| && forall k :: 0 <= k < i ==> slots[k] != null
        decreases index - i
      {
        i := i + 1;
      }
      var stream := new Stream();
      sd := i + STRING_FD_THRESHOLD;
      slots := slots[i := stream];
      if i == index {
        index := index + 1;
      }
    }

    /** `symdump_close_string_data`: the slot is free again, the buffer goes to the caller. */
    method CloseStream(sd: int) returns (result: Stream?)
      requires Valid() && (StreamOf(sd) != null ==> StreamOf(sd).Valid())
      modifies this, StreamOf(sd)
      ensures Valid() && result == old(StreamOf(sd)) && StreamOf(sd) == null
      ensures forall other :: other != sd ==> StreamOf(other) == old(StreamOf(other))
      ensures result != null ==> result.Valid() && result.buffer == result.Before() == old(StreamOf(sd).Before())
    {
      result := BufferOf(sd);
      if result != null {
        result.Trim();
        slots := slots[sd - STRING_FD_THRESHOLD := null];
      }
    }
  }

  // ---------------------------------------------------------------- writing

  class Symbol {
    const name: Text
    const content: Content
    var flags: int

    function Now(): Sym
      reads this
    {
      Sym(name, flags, content)
    }

    constructor (name: Text, flags: int, content: Content)
      ensures Now() == Sym(name, flags, content)
    {
      this.name, this.flags, this.content := name, flags, content;
    }
  }

  /** `write_integer`. */
  method WriteInteger(stream: Stream, n: int)
    requires stream.Valid()
    modifies stream
    ensures stream.Valid() && stream.Before() == old(stream.Before()) + IntBytes(n)
  {
    ghost var before := stream.Before();
    var _ := stream.Write([n % 0x100]);
    var _ := stream.Write([n / 0x100 % 0x100]);
    var _ := stream.Write([n / 0x100 / 0x100 % 0x100]);
    var _ := stream.Write([n / 0x100 / 0x100 / 0x100 % 0x100]);
    assert stream.Before() == before + IntBytes(n);
  }

  method WriteShort(stream: Stream, t: Text)
    requires stream.Valid()
    modifies stream
    ensures stream.Valid() && stream.Before() == old(stream.Before()) + ShortBytes(t)
  {
    ghost var before := stream.Before();
    var length: Byte := |t| % 256;
    var _ := stream.Write([length]);
    var _ := stream.Write(t[..length]);
    Regroup(before, [length], t[..length]);
  }

  method WriteLong(stream: Stream, t: Text)
    requires stream.Valid()
    modifies stream
    ensures stream.Valid() && stream.Before() == old(stream.Before()) + LongBytes(t)
  {
    ghost var before := stream.Before();
    WriteInteger(stream, |t|);
    var _ := stream.Write(t);
    Regroup(before, IntBytes(|t|), t);
  }

  method WriteValues(stream: Stream, vs: seq<Text>)
    requires stream.Valid()
    modifies stream
    ensures stream.Valid() && stream.Before() == old(stream.Before()) + (IntBytes(|vs|) + ValuesBytes(vs))
  {
    hide IntBytes, ValueBytes, LongBytes;
    ghost var before := stream.Before();
    WriteInteger(stream, |vs|);
    Regroup(before, IntBytes(|vs|), ValuesBytes(vs));
    var i := 0;
    while i < |vs|
      invariant 0 <= i <= |vs| && stream.Valid()
      invariant stream.Before() + ValuesBytes(vs[i..]) == before + (IntBytes(|vs|) + ValuesBytes(vs))
    {
      ghost var soFar := stream.Before();
      WriteValue(stream, vs[i]);
      Regroup(soFar, ValueBytes(vs[i]), ValuesBytes(vs[i + 1..]));
      assert vs[i..][1..] == vs[i + 1..];
      i := i + 1;
    }
    assert ValuesBytes(vs[i..]) == [];
  }

  method WriteValue(stream: Stream, v: Text)
    requires stream.Valid()
    modifies stream
    ensures stream.Valid() && stream.Before() == old(stream.Before()) + ValueBytes(v)
  {
    if v == [] {
      WriteLong(stream, [0]);
    } else {
      WriteLong(stream, v);
    }
  }

  method WriteParameters(stream: Stream, ts: seq<Text>)
    requires stream.Valid()
    modifies stream
    ensures stream.Valid() && stream.Before() == old(stream.Before()) + CountedBytes(ts)
  {
    hide ShortBytes;
    ghost var before := stream.Before();
    var count: Byte := |ts| % 256;
    ghost var those := ts[..count];
    var _ := stream.Write([count]);
    Regroup(before, [count], ShortsBytes(those));
    var i := 0;
    while i < count
      invariant 0 <= i <= count && stream.Valid()
      invariant stream.Before() + ShortsBytes(those[i..]) == before + CountedBytes(ts)
    {
      ghost var soFar := stream.Before();
      WriteShort(stream, ts[i]);
      Regroup(soFar, ShortBytes(ts[i]), ShortsBytes(those[i + 1..]));
      assert those[i..][1..] == those[i + 1..];
      i := i + 1;
    }
    assert ShortsBytes(those[i..]) == [];
  }

  method WriteFunction(stream: Stream, f: UserFunction)
    requires stream.Valid()
    modifies stream
    ensures stream.Valid() && stream.Before() == old(stream.Before()) + FunctionBytes(f)
  {
    hide ShortBytes, CountedBytes, LongBytes;
    ghost var before := stream.Before();
    var kind: Byte, flags: Byte := f.kind % 256, f.flags % 256;
    var _ := stream.Write([kind]);
    var _ := stream.Write([flags]);
    assert stream.Before() == before + [kind, flags];
    ghost var name, parameters := ShortBytes(OrNone(f.packname)), CountedBytes(OrNone(f.parameters));
    ghost var body := LongBytes(OrNone(f.body));
    WriteShort(stream, OrNone(f.packname));
    WriteParameters(stream, OrNone(f.parameters));
    WriteLong(stream, OrNone(f.body));
    Regroup(before + [kind, flags] + name, parameters, body);
    Regroup(before + [kind, flags], name, parameters + body);
    Regroup(before, [kind, flags], name + (parameters + body));
  }

  /** `write_symbol`, for a symbol without machine code. The mark that chose it is gone afterwards. */
  method WriteSymbol(sym: Symbol, stream: Stream)
    requires stream.Valid()
    modifies stream, sym`flags
    ensures stream.Valid() && stream.Before() == old(stream.Before()) + SymBytes(old(sym.Now()))
    ensures sym.flags == Cleared(old(sym.flags), FLAGGED)
  {
    hide ShortBytes, IntBytes, ContentBytes;
    ghost var before := stream.Before();
    WriteShort(stream, sym.name);
    var kind := TypeOf(sym.content);
    var _ := stream.Write([kind]);
    sym.flags := Cleared(sym.flags, FLAGGED);
    var flags := Cleared(sym.flags, MACH_RES);
    WriteInteger(stream, flags);
    WriteContent(stream, sym.content);
    ghost var name, number, content := ShortBytes(sym.name), IntBytes(flags), ContentBytes(sym.content);
    Regroup(before + name + [kind], number, content);
    Regroup(before + name, [kind], number + content);
    Regroup(before, name, [kind] + (number + content));
  }

  method WriteContent(stream: Stream, content: Content)
    requires stream.Valid()
    modifies stream
    ensures stream.Valid() && stream.Before() == old(stream.Before()) + ContentBytes(content)
  {
    match content
    case Strings(vs) => WriteValues(stream, vs);
    case Primitive(_) =>
    case Binary(block) => WriteLong(stream, OrNone(block));
    case Function(f) => WriteFunction(stream, f);
  }

  function ValuesOf(symbols: seq<Symbol>): seq<Sym>
    reads symbols
  {
    if symbols == [] then [] else [symbols[0].Now()] + ValuesOf(symbols[1..])
  }

  /** The symbols that are written: all, or those with the mark. */
  function Chosen(syms: seq<Sym>, flagged: bool): seq<Sym> {
    if syms == [] then []
    else (if !flagged || HasBit(syms[0].flags, FLAGGED) then [syms[0]] else []) + Chosen(syms[1..], flagged)
  }

  lemma {:induction false} ValuesOfAt(symbols: seq<Symbol>, k: nat)
    requires k < |symbols|
    ensures |ValuesOf(symbols)| == |symbols| && ValuesOf(symbols)[k] == symbols[k].Now()
    decreases |symbols|
  {
    if |symbols| > 1 {
      ValuesOfAt(symbols[1..], if k > 0 then k - 1 else 0);
    }
  }

  /** The first loop of `symbol_dump_package`. */
  method CountChosen(symbols: seq<Symbol>, flagged: bool, ghost was: seq<Sym>) returns (len: nat)
    requires |was| == |symbols| && forall k :: 0 <= k < |was| ==> was[k] == symbols[k].Now()
    ensures len == |Chosen(was, flagged)|
  {
    hide HasBit;
    len := 0;
    var i := 0;
    while i < |symbols|
      invariant 0 <= i <= |symbols| && len + |Chosen(was[i..], flagged)| == |Chosen(was, flagged)|
    {
      assert was[i..][1..] == was[i + 1..] && was[i..][0] == symbols[i].Now();
      if !flagged || HasBit(symbols[i].flags, FLAGGED) {
        len := len + 1;
      }
      i := i + 1;
    }
  }

  /** The second loop of `symbol_dump_package`. */
  method WriteChosen(stream: Stream, symbols: seq<Symbol>, flagged: bool, ghost was: seq<Sym>)
    requires stream.Valid() && |was| == |symbols|
    requires forall j, k :: 0 <= j < k < |symbols| ==> symbols[j] != symbols[k]
    requires forall k :: 0 <= k < |was| ==> was[k] == symbols[k].Now()
    modifies stream, symbols
    ensures stream.Valid() && stream.Before() == old(stream.Before()) + SymsBytes(Chosen(was, flagged))
    ensures forall k :: 0 <= k < |symbols| ==> symbols[k].flags == AfterWriting(was[k].flags, flagged)
  {
    hide HasBit, SymBytes, SymsBytes, Chosen, AfterWriting;
    ghost var before := stream.Before();
    var i := 0;
    while i < |symbols|
      invariant 0 <= i <= |symbols| && stream.Valid()
      invariant stream.Before() + SymsBytes(Chosen(was[i..], flagged)) == before + SymsBytes(Chosen(was, flagged))
      invariant forall k :: 0 <= k < i ==> symbols[k].flags == AfterWriting(was[k].flags, flagged)
      invariant forall k :: i <= k < |symbols| ==> symbols[k].flags == was[k].flags
    {
      ghost var soFar := stream.Before();
      ChosenSplits(was, i, flagged);
      WriteIfChosen(stream, symbols[i], flagged);
      Regroup(soFar, if !flagged || HasBit(was[i].flags, FLAGGED) then SymBytes(was[i]) else [],
              SymsBytes(Chosen(was[i + 1..], flagged)));
      i := i + 1;
    }
    NoneChosen(was[i..], flagged);
  }

  lemma NoneChosen(syms: seq<Sym>, flagged: bool)
    requires syms == []
    ensures SymsBytes(Chosen(syms, flagged)) == []
  {
  }

  method WriteIfChosen(stream: Stream, sym: Symbol, flagged: bool)
    requires stream.Valid()
    modifies stream, sym`flags
    ensures stream.Valid() && sym.flags == AfterWriting(old(sym.flags), flagged)
    ensures stream.Before()
         == old(stream.Before()) + if !flagged || HasBit(old(sym.flags), FLAGGED) then SymBytes(old(sym.Now())) else []
  {
    hide HasBit, SymBytes;
    if !flagged || HasBit(sym.flags, FLAGGED) {
      WriteSymbol(sym, stream);
    } else {
      assert stream.Before() + [] == stream.Before();
    }
  }

  function AfterWriting(flags: int, flagged: bool): int {
    if !flagged || HasBit(flags, FLAGGED) then Cleared(flags, FLAGGED) else flags
  }

  lemma ChosenSplits(was: seq<Sym>, i: nat, flagged: bool)
    requires i < |was|
    ensures SymsBytes(Chosen(was[i..], flagged))
            == (if !flagged || HasBit(was[i].flags, FLAGGED) then SymBytes(was[i]) else [])
               + SymsBytes(Chosen(was[i + 1..], flagged))
  {
    hide HasBit, SymBytes;
    assert was[i..][1..] == was[i + 1..];
    var rest := Chosen(was[i + 1..], flagged);
    assert ([was[i]] + rest)[1..] == rest;
    assert [] + rest == rest;
    assert [] + SymsBytes(rest) == SymsBytes(rest);
  }

  /** `symbol_dump_package`. Nothing at all is written of a package without symbols. Otherwise the
      number in the header is the number of records that follow it, although writing a record removes
      the mark it was counted by. */
  method DumpPackage(stream: Stream, name: Text, symbols: seq<Symbol>, flagged: bool)
    requires stream.Valid()
    requires forall j, k :: 0 <= j < k < |symbols| ==> symbols[j] != symbols[k]
    modifies stream, symbols
    ensures stream.Valid()
    ensures stream.Before() == old(stream.Before())
              + if symbols == [] then [] else PackageBytes(Dump(name, Chosen(old(ValuesOf(symbols)), flagged)))
    ensures forall k :: 0 <= k < |symbols| ==> symbols[k].flags == AfterWriting(old(symbols[k].flags), flagged)
  {
    hide HasBit, ShortBytes, IntBytes, SymsBytes, Chosen, ValuesOf, AfterWriting;
    if symbols == [] {
      assert stream.Before() + [] == stream.Before();
      return;
    }
    ghost var before, was := stream.Before(), ValuesOf(symbols);
    ValuesOfAt(symbols, 0);
    forall k | 0 <= k < |symbols| ensures was[k] == symbols[k].Now() {
      ValuesOfAt(symbols, k);
    }
    var len := CountChosen(symbols, flagged, was);
    WriteShort(stream, name);
    WriteInteger(stream, len);
    WriteChosen(stream, symbols, flagged, was);
    ghost var syms := Chosen(was, flagged);
    Regroup(before + ShortBytes(name), IntBytes(|syms|), SymsBytes(syms));
    Regroup(before, ShortBytes(name), IntBytes(|syms|) + SymsBytes(syms));
  }

  // ---------------------------------------------------------------- writing several packages

  datatype NamedPackage = NamedPackage(name: Text, symbols: seq<Symbol>)

  /** No symbol is in two of the packages, or twice in one. */
  ghost predicate Apart(packs: seq<NamedPackage>) {
    forall i, j, k, m | 0 <= i < |packs| && 0 <= j < |packs| &&
                        0 <= k < |packs[i].symbols| && 0 <= m < |packs[j].symbols| ::
      i != j || k != m ==> packs[i].symbols[k] != packs[j].symbols[m]
  }

  ghost function SymbolsOf(packs: seq<NamedPackage>): set<Symbol> {
    set i, k | 0 <= i < |packs| && 0 <= k < |packs[i].symbols| :: packs[i].symbols[k]
  }

  /** The packages hold what `ds` says. */
  ghost predicate Snapshot(packs: seq<NamedPackage>, ds: seq<Dump>)
    reads SymbolsOf(packs)
  {
    && |ds| == |packs|
    && forall i :: 0 <= i < |packs| ==>
         && ds[i].name == packs[i].name && |ds[i].syms| == |packs[i].symbols|
         && forall k :: 0 <= k < |packs[i].symbols| ==> ds[i].syms[k] == packs[i].symbols[k].Now()
  }

  /** The packages listed are among the `n` there are. One may be listed twice. */
  predicate Listed(order: seq<nat>, n: nat) {
    forall k :: 0 <= k < |order| ==> order[k] < n
  }

  /** A package after it has been written: what was written is no longer marked. */
  function Unmarked(d: Dump, flagged: bool): Dump {
    Dump(d.name, seq(|d.syms|, k requires 0 <= k < |d.syms| =>
                                 Sym(d.syms[k].name, AfterWriting(d.syms[k].flags, flagged), d.syms[k].content)))
  }

  /** All packages after those listed have been written. */
  function AllUnmarked(ds: seq<Dump>, order: seq<nat>, flagged: bool): (r: seq<Dump>)
    requires Listed(order, |ds|)
    ensures |r| == |ds|
    decreases |order|
  {
    if order == [] then ds
    else AllUnmarked(ds[order[0] := Unmarked(ds[order[0]], flagged)], order[1..], flagged)
  }

  /** What is written of a package: nothing at all, if it has no symbols. */
  function WrittenOf(d: Dump, flagged: bool): seq<Dump> {
    if d.syms == [] then [] else [Dump(d.name, Chosen(d.syms, flagged))]
  }

  /** What is written of the packages listed. */
  function Written(ds: seq<Dump>, order: seq<nat>, flagged: bool): seq<Dump>
    requires Listed(order, |ds|)
    decreases |order|
  {
    if order == [] then []
    else
      var d := ds[order[0]];
      WrittenOf(d, flagged) + Written(ds[order[0] := Unmarked(d, flagged)], order[1..], flagged)
  }

  lemma WrittenFrom(ds: seq<Dump>, order: seq<nat>, i: nat, flagged: bool)
    requires Listed(order, |ds|) && i < |order|
    ensures var ds' := ds[order[i] := Unmarked(ds[order[i]], flagged)];
            && DumpsBytes(Written(ds, order[i..], flagged))
               == DumpsBytes(WrittenOf(ds[order[i]], flagged)) + DumpsBytes(Written(ds', order[i + 1..], flagged))
            && AllUnmarked(ds, order[i..], flagged) == AllUnmarked(ds', order[i + 1..], flagged)
  {
    hide PackageBytes, Chosen, Unmarked;
    assert order[i..][1..] == order[i + 1..];
    var rest := Written(ds[order[i] := Unmarked(ds[order[i]], flagged)], order[i + 1..], flagged);
    var d := ds[order[i]];
    if d.syms == [] {
      assert [] + rest == rest && [] + DumpsBytes(rest) == DumpsBytes(rest);
    } else {
      var w := Dump(d.name, Chosen(d.syms, flagged));
      assert ([w] + rest)[1..] == rest;
      assert [w][1..] == [] && PackageBytes(w) + [] == PackageBytes(w);
    }
  }

  /** A package that is written a second time is written whole again, or with none of its symbols when only
      marked ones are written. */
  lemma WrittenAgain(d: Dump, flagged: bool)
    ensures DumpsBytes(WrittenOf(Unmarked(d, flagged), flagged)) ==
            if d.syms == [] then [] else PackageBytes(Dump(d.name, if flagged then [] else d.syms))
  {
    hide PackageBytes, AfterWriting;
    if d.syms != [] {
      ChosenAgain(d.syms, Unmarked(d, flagged).syms, flagged);
      var w := Dump(d.name, Chosen(Unmarked(d, flagged).syms, flagged));
      assert [w][1..] == [] && PackageBytes(w) + [] == PackageBytes(w);
      SameBytes(w, Dump(d.name, if flagged then [] else d.syms));
    }
  }

  lemma SameBytes(d: Dump, e: Dump)
    requires d.name == e.name && |d.syms| == |e.syms| && SymsBytes(d.syms) == SymsBytes(e.syms)
    ensures PackageBytes(d) == PackageBytes(e)
  {
  }

  lemma {:induction false} ChosenAgain(syms: seq<Sym>, now: seq<Sym>, flagged: bool)
    requires |now| == |syms|
    requires forall k :: 0 <= k < |syms| ==>
                           now[k] == Sym(syms[k].name, AfterWriting(syms[k].flags, flagged), syms[k].content)
    ensures var again, all := Chosen(now, flagged), if flagged then [] else syms;
            |again| == |all| && SymsBytes(again) == SymsBytes(all)
    decreases |syms|
  {
    hide SymBytes, AfterWriting;
    if syms != [] {
      ChosenAgain(syms[1..], now[1..], flagged);
      MarkedOnce(syms[0], flagged);
      if !flagged {
        assert ([now[0]] + Chosen(now[1..], flagged))[1..] == Chosen(now[1..], flagged);
      }
    }
  }

  lemma MarkedOnce(sym: Sym, flagged: bool)
    ensures var now := Sym(sym.name, AfterWriting(sym.flags, flagged), sym.content);
            if flagged then !HasBit(now.flags, FLAGGED) else SymBytes(now) == SymBytes(sym)
  {
    hide ShortBytes, IntBytes, ContentBytes;
  }

  /** Writes one package that holds what `d` says. */
  method DumpNamed(stream: Stream, pack: NamedPackage, flagged: bool, ghost d: Dump)
    requires stream.Valid() && d.name == pack.name && |d.syms| == |pack.symbols|
    requires forall k :: 0 <= k < |pack.symbols| ==> d.syms[k] == pack.symbols[k].Now()
    requires forall j, k :: 0 <= j < k < |pack.symbols| ==> pack.symbols[j] != pack.symbols[k]
    modifies stream, pack.symbols
    ensures stream.Valid() && stream.Before() == old(stream.Before()) + DumpsBytes(WrittenOf(d, flagged))
    ensures forall k :: 0 <= k < |pack.symbols| ==> Unmarked(d, flagged).syms[k] == pack.symbols[k].Now()
  {
    hide PackageBytes, Chosen, AfterWriting, ValuesOf;
    ValuesAre(pack.symbols, d.syms);
    DumpPackage(stream, pack.name, pack.symbols, flagged);
    OneDump(d, flagged);
  }

  lemma OneDump(d: Dump, flagged: bool)
    ensures DumpsBytes(WrittenOf(d, flagged))
         == if d.syms == [] then [] else PackageBytes(Dump(d.name, Chosen(d.syms, flagged)))
  {
    hide PackageBytes;
    var w := Dump(d.name, Chosen(d.syms, flagged));
    assert [w][1..] == [] && PackageBytes(w) + [] == PackageBytes(w);
  }

  lemma ValuesAre(symbols: seq<Symbol>, syms: seq<Sym>)
    requires |syms| == |symbols| && forall k :: 0 <= k < |symbols| ==> syms[k] == symbols[k].Now()
    ensures ValuesOf(symbols) == syms
  {
    if symbols != [] {
      ValuesOfAt(symbols, 0);
      forall k | 0 <= k < |symbols| ensures ValuesOf(symbols)[k] == syms[k] {
        ValuesOfAt(symbols, k);
      }
    }
  }

  /** Writes one of the packages; the others keep their marks. */
  method DumpListed(stream: Stream, packs: seq<NamedPackage>, p: nat, flagged: bool, ghost ds: seq<Dump>)
    requires stream.Valid() && Apart(packs) && Snapshot(packs, ds) && p < |packs|
    modifies stream, packs[p].symbols
    ensures stream.Valid() && stream.Before() == old(stream.Before()) + DumpsBytes(WrittenOf(ds[p], flagged))
    ensures Snapshot(packs, ds[p := Unmarked(ds[p], flagged)])
  {
    hide WrittenOf, DumpsBytes, AfterWriting;
    DumpNamed(stream, packs[p], flagged, ds[p]);
    forall i, k | 0 <= i < |packs| && i != p && 0 <= k < |packs[i].symbols|
      ensures ds[i].syms[k] == packs[i].symbols[k].Now()
    {
      assert packs[i].symbols[k] !in packs[p].symbols;
    }
  }

  /** Writes the packages listed one after the other, as `pf_write_package_file` does. */
  method DumpAll(stream: Stream, packs: seq<NamedPackage>, order: seq<nat>, flagged: bool, ghost ds: seq<Dump>)
    requires stream.Valid() && Apart(packs) && Snapshot(packs, ds) && Listed(order, |packs|)
    modifies stream, SymbolsOf(packs)
    ensures stream.Valid() && stream.Before() == old(stream.Before()) + DumpsBytes(Written(ds, order, flagged))
    ensures Snapshot(packs, AllUnmarked(ds, order, flagged))
  {
    hide WrittenOf, Written, DumpsBytes, AllUnmarked, Unmarked;
    ghost var before, now := stream.Before(), ds;
    assert order[0..] == order;
    var i := 0;
    while i < |order|
      invariant 0 <= i <= |order| && stream.Valid() && Snapshot(packs, now) && Listed(order[i..], |now|)
      invariant stream.Before() + DumpsBytes(Written(now, order[i..], flagged))
             == before + DumpsBytes(Written(ds, order, flagged))
      invariant AllUnmarked(now, order[i..], flagged) == AllUnmarked(ds, order, flagged)
    {
      ghost var soFar := stream.Before();
      var p := order[i];
      WrittenFrom(now, order, i, flagged);
      ghost var now' := now[p := Unmarked(now[p], flagged)];
      Regroup(soFar, DumpsBytes(WrittenOf(now[p], flagged)), DumpsBytes(Written(now', order[i + 1..], flagged)));
      DumpListed(stream, packs, p, flagged, now);
      now := now';
      i := i + 1;
    }
    NothingListed(now, order[i..], flagged);
    assert stream.Before() + [] == stream.Before();
  }

  lemma NothingListed(ds: seq<Dump>, order: seq<nat>, flagged: bool)
    requires order == []
    ensures DumpsBytes(Written(ds, order, flagged)) == [] && AllUnmarked(ds, order, flagged) == ds
  {
  }

  // ---------------------------------------------------------------- reading

  method ReadByte(stream: Stream) returns (b: Byte)
    requires stream.Valid() && ParseByte(stream.Rest()).Got?
    modifies stream`bindex
    ensures stream.Valid() && ParseByte(old(stream.Rest())) == Got(b, stream.Rest())
  {
    var data := stream.Read(1);
    b := data[0];
  }

  /** `read_integer`. */
  method ReadInteger(stream: Stream) returns (n: int)
    requires stream.Valid() && ParseInt(stream.Rest()).Got?
    modifies stream`bindex
    ensures stream.Valid() && ParseInt(old(stream.Rest())) == Got(n, stream.Rest())
  {
    ghost var s := stream.Rest();
    var b1: int := ReadByte(stream);
    var b2: int := ReadByte(stream);
    var b3: int := ReadByte(stream);
    var b4: int := ReadByte(stream);
    n := b4 * 0x100_0000 + b3 * 0x1_0000 + b2 * 0x100 + b1;
    if n >= 0x8000_0000 {
      n := n - 0x1_0000_0000;
    }
    assert s[1..][1..][1..][1..] == s[4..];
  }

  method ReadShort(stream: Stream) returns (t: Text, len: Byte)
    requires stream.Valid() && ParseShort(stream.Rest()).Got?
    modifies stream`bindex
    ensures stream.Valid() && ParseShort(old(stream.Rest())) == Got(t, stream.Rest())
    ensures len == old(stream.Rest())[0]
  {
    len := ReadByte(stream);
    var data := stream.Read(len);
    t := UpToNul(data);
  }

  method ReadLong(stream: Stream) returns (t: Text)
    requires stream.Valid() && ParseLong(stream.Rest()).Got?
    modifies stream`bindex
    ensures stream.Valid() && ParseLong(old(stream.Rest())) == Got(t, stream.Rest())
  {
    hide IntOf, UpToNul;
    var len := ReadInteger(stream);
    var data := stream.Read(len);
    t := UpToNul(data);
  }

  method ReadValues(stream: Stream, n: int) returns (vs: seq<Text>)
    requires stream.Valid() && ParseLongs(stream.Rest(), n).Got?
    modifies stream`bindex
    ensures stream.Valid() && ParseLongs(old(stream.Rest()), n) == Got(vs, stream.Rest())
  {
    hide ParseLong;
    ghost var all := ParseLongs(stream.Rest(), n);
    vs := [];
    var i := 0;
    while i < n
      invariant stream.Valid() && 0 <= i && (0 <= n ==> i <= n) && ParseLongs(stream.Rest(), n - i).Got?
      invariant ParseLongs(stream.Rest(), n - i).rest == all.rest &&
                all.value == vs + ParseLongs(stream.Rest(), n - i).value
    {
      ghost var before, v0 := vs, ParseLongs(stream.Rest(), n - i).value;
      var v := ReadLong(stream);
      vs := vs + [v];
      Regroup(before, [v], ParseLongs(stream.Rest(), n - i - 1).value);
      i := i + 1;
    }
    assert vs + [] == vs;
  }

  method ReadParameters(stream: Stream) returns (parameters: Option<seq<Text>>)
    requires stream.Valid() && ParseCounted(stream.Rest()).Got?
    modifies stream`bindex
    ensures stream.Valid() && ParseCounted(old(stream.Rest())) == Got(parameters, stream.Rest())
  {
    hide ParseShort;
    var n := ReadByte(stream);
    if n == 0 {
      return None;
    }
    ghost var all := ParseShorts(stream.Rest(), n);
    var ts := [];
    var i := 0;
    while i < n
      invariant stream.Valid() && 0 <= i <= n && ParseShorts(stream.Rest(), n - i).Got?
      invariant ParseShorts(stream.Rest(), n - i).rest == all.rest &&
                all.value == ts + ParseShorts(stream.Rest(), n - i).value
    {
      ghost var before := ts;
      var t, _ := ReadShort(stream);
      ts := ts + [t];
      Regroup(before, [t], ParseShorts(stream.Rest(), n - i - 1).value);
      i := i + 1;
    }
    assert ts + [] == ts;
    parameters := Some(ts);
  }

  method ReadFunction(stream: Stream, name: Text) returns (f: UserFunction)
    requires stream.Valid() && ParseFunction(stream.Rest(), name).Got?
    modifies stream`bindex
    ensures stream.Valid() && ParseFunction(old(stream.Rest()), name) == Got(f, stream.Rest())
  {
    hide ParseShort, ParseCounted, ParseLong;
    ghost var s := stream.Rest();
    assert s[1..][1..] == s[2..];
    var kind := ReadByte(stream);
    var flags := ReadByte(stream);
    var packname, len := ReadShort(stream);
    var parameters := ReadParameters(stream);
    var body := ReadLong(stream);
    f := UserFunction(kind, flags, 0, name, Some(body), if len != 0 then Some(packname) else None, parameters, []);
  }

  method ReadContent(stream: Stream, kind: Byte, name: Text) returns (content: Content)
    requires stream.Valid() && ParseContent(stream.Rest(), kind, name).Got?
    modifies stream`bindex
    ensures stream.Valid() && ParseContent(old(stream.Rest()), kind, name) == Got(content, stream.Rest())
  {
    hide ParseInt, ParseLongs, ParseLong, ParseFunction;
    match kind
    case 0 =>
      var n := ReadInteger(stream);
      var values := ReadValues(stream, n);
      content := Strings(values);
    case 1 => content := Primitive(0);
    case 2 =>
      var _ := ReadLong(stream);
      content := Binary(None);
    case _ =>
      var f := ReadFunction(stream, name);
      content := Function(f);
  }

  lemma RemovedThenSet(table: Table, symbol: Text, sym: Sym)
    ensures (table - {symbol})[symbol := sym] == table[symbol := sym]
  {
  }

  /** The packages that have names. */
  class AllPackages {
    var packages: Packages

    /** `symbol_get_package_hash`, for a name that is neither empty nor made of carats. */
    method GetPackage(name: Text)
      modifies this
      ensures packages == old(packages)[name := TableOf(old(packages), name)]
    {
      if name !in packages {
        packages := packages[name := map[]];
      } else {
        assert packages[name := packages[name]] == packages;
      }
    }

    /** `read_symbol`: the symbol that was there is removed, and a new one interned and filled. */
    method ReadSymbol(stream: Stream, name: Text)
      requires stream.Valid() && name in packages && ParseSym(stream.Rest()).Got?
      modifies this, stream`bindex
      ensures stream.Valid()
      ensures var p := ParseSym(old(stream.Rest()));
              stream.Rest() == p.rest && packages == old(packages)[name := old(packages)[name][p.value.name := p.value]]
    {
      hide ParseShort, ParseByte, ParseInt, ParseContent;
      ghost var was := packages;
      var symbol, _ := ReadShort(stream);
      packages := packages[name := packages[name] - {symbol}];
      var kind := ReadByte(stream);
      var flags := ReadInteger(stream);
      var content := ReadContent(stream, kind, symbol);
      packages := packages[name := packages[name][symbol := Sym(symbol, flags, content)]];
      RemovedThenSet(was[name], symbol, Sym(symbol, flags, content));
    }

    /** `symbol_load_package`. */
    method LoadPackage(stream: Stream) returns (loaded: Option<Text>)
      requires stream.Valid()
      requires var p := ParsePackage(stream.Rest()); p.Got? && (p.value.Some? ==> Ordinary(p.value.value.name))
      modifies this, stream`bindex
      ensures stream.Valid()
      ensures match ParsePackage(old(stream.Rest())).value
              case None => loaded == None && packages == old(packages) && stream.Rest() == []
              case Some(d) => loaded == Some(d.name) && packages == Loaded(old(packages), d.name, d.syms)
      ensures stream.Rest() == ParsePackage(old(stream.Rest())).rest
    {
      hide ParseInt, ParseSym, Ordinary, UpToNul;
      var byte := stream.Read(1);
      if |byte| < 1 {
        return None;
      }
      var data := stream.Read(byte[0]);
      var name := UpToNul(data);
      var numSyms := ReadInteger(stream);
      GetPackage(name);
      ReadSymbols(stream, name, numSyms);
      loaded := Some(name);
    }

    /** The loop of `symbol_load_package`. */
    method ReadSymbols(stream: Stream, name: Text, n: int)
      requires stream.Valid() && name in packages && ParseSyms(stream.Rest(), n).Got?
      modifies this, stream`bindex
      ensures stream.Valid()
      ensures var p := ParseSyms(old(stream.Rest()), n);
              stream.Rest() == p.rest && packages == old(packages)[name := Installed(old(packages)[name], p.value)]
    {
      hide ParseSym;
      ghost var was, all := packages, ParseSyms(stream.Rest(), n);
      var i := 0;
      while i < n
        invariant stream.Valid() && 0 <= i && (0 <= n ==> i <= n) && name in packages &&
                  ParseSyms(stream.Rest(), n - i).Got?
        invariant ParseSyms(stream.Rest(), n - i).rest == all.rest
        invariant packages == was[name := packages[name]]
        invariant Installed(packages[name], ParseSyms(stream.Rest(), n - i).value) == Installed(was[name], all.value)
      {
        ghost var syms := ParseSyms(stream.Rest(), n - i).value;
        ReadSymbol(stream, name);
        assert syms[1..] == ParseSyms(stream.Rest(), n - i - 1).value;
        i := i + 1;
      }
    }

    /** Loading until the stream is at its end, as the callers of `symbol_load_package` do. */
    method LoadAll(stream: Stream, ghost ds: seq<Dump>)
      requires stream.Valid() && stream.Rest() == DumpsBytes(ds) && forall k :: 0 <= k < |ds| ==> Dumpable(ds[k])
      modifies this, stream`bindex
      ensures stream.Valid() && stream.Rest() == [] && packages == LoadedAll(old(packages), ds)
    {
      hide PackageBytes, ParsePackage, Dumpable, Loaded, RestoredAll;
      ghost var k, was := 0, packages;
      NothingToParse();
      LoadStep(ds, 0);
      var loaded := LoadPackage(stream);
      while loaded.Some?
        invariant stream.Valid() && k <= |ds|
        invariant if loaded.None? then k == |ds| && stream.Rest() == [] && packages == LoadedAll(was, ds)
                  else k < |ds| && stream.Rest() == DumpsBytes(ds[k + 1..]) &&
                       LoadedAll(packages, ds[k + 1..]) == LoadedAll(was, ds)
        decreases |ds| - k, if loaded.Some? then 1 else 0
      {
        k := k + 1;
        LoadStep(ds, k);
        loaded := LoadPackage(stream);
      }
    }
  }

  lemma LoadStep(ds: seq<Dump>, k: nat)
    requires k <= |ds| && forall j :: 0 <= j < |ds| ==> Dumpable(ds[j])
    ensures var p := ParsePackage(DumpsBytes(ds[k..]));
            if k < |ds| then
              && p == Got(Some(Dump(ds[k].name, RestoredAll(ds[k].syms))), DumpsBytes(ds[k + 1..]))
              && Ordinary(ds[k].name)
              && forall packages ::
                   LoadedAll(packages, ds[k..])
                   == LoadedAll(Loaded(packages, ds[k].name, RestoredAll(ds[k].syms)), ds[k + 1..])
            else p == Got(None, []) && forall packages :: LoadedAll(packages, ds[k..]) == packages
  {
    hide ParsePackage, PackageBytes, Loaded, RestoredAll;
    if k < |ds| {
      assert ds[k..][1..] == ds[k + 1..];
      PackageRoundTrip(ds[k], DumpsBytes(ds[k + 1..]));
    } else {
      NothingToParse();
    }
  }

  /** Packages are written to a new stream, which is then read to its end: every record comes back, and
      nothing else is changed. */
  method DumpAndLoad(packs: seq<NamedPackage>, order: seq<nat>, flagged: bool, target: AllPackages,
                     ghost ds: seq<Dump>)
    requires Apart(packs) && Snapshot(packs, ds) && Listed(order, |packs|)
    requires var written := Written(ds, order, flagged); forall k :: 0 <= k < |written| ==> Dumpable(written[k])
    modifies target, SymbolsOf(packs)
    ensures target.packages == LoadedAll(old(target.packages), Written(ds, order, flagged))
  {
    hide Apart, Written, Dumpable, LoadedAll, DumpsBytes;
    var stream := new Stream();
    DumpAll(stream, packs, order, flagged, ds);
    ghost var text := DumpsBytes(Written(ds, order, flagged));
    Rewind(stream, text);
    target.LoadAll(stream, Written(ds, order, flagged));
  }

  method Rewind(stream: Stream, ghost text: Text)
    requires stream.Valid() && stream.Before() == [] + text
    modifies stream
    ensures stream.Valid() && stream.Rest() == text
  {
    stream.Trim();
    stream.Seek(0);
  }
}

/** How packages of variables are laid out as bytes, and what those bytes mean to the reader
    (libmhtml/symdump.c). */
module SymbolFormat {
  import opened Bytes
  import opened Options
  import opened Slices

  /** `sym_MACH_RES` and `sym_FLAGGED`, as bits. */
  const MACH_RES := 0x10
  const FLAGGED := 0x20

  datatype UserFunction = UserFunction(kind: int, flags: int, debugLevel: int, name: Text, body: Option<Text>,
                                       packname: Option<Text>, parameters: Option<seq<Text>>, documentation: seq<Text>)

  /** What a symbol of each type holds. `None` and 0 stand for null pointers. */
  datatype Content = Strings(values: seq<Text>)
                   | Primitive(code: int)
                   | Binary(block: Option<Text>)
                   | Function(fun: UserFunction)

  datatype Sym = Sym(name: Text, flags: int, content: Content)

  function TypeOf(content: Content): Byte {
    match content
    case Strings(_) => 0
    case Primitive(_) => 1
    case Binary(_) => 2
    case Function(_) => 3
  }

  predicate HasBit(flags: int, bit: int)
    requires bit > 0
  {
    flags / bit % 2 == 1
  }

  function Cleared(flags: int, bit: int): int
    requires bit > 0
  {
    if HasBit(flags, bit) then flags - bit else flags
  }

  // ---------------------------------------------------------------- what is written

  /** `write_integer`: the 32-bit two's complement, lowest byte first. */
  function IntBytes(n: int): (b: Text)
    ensures |b| == 4
  {
    [n % 0x100, n / 0x100 % 0x100, n / 0x100 / 0x100 % 0x100, n / 0x100 / 0x100 / 0x100 % 0x100]
  }

  /** A length in one byte, and that many bytes. */
  function ShortBytes(t: Text): Text {
    [|t| % 256] + t[..|t| % 256]
  }

  /** A length in four bytes, and that many bytes. */
  function LongBytes(t: Text): Text {
    IntBytes(|t|) + t
  }

  /** Of an empty string the NUL is written. */
  function ValueBytes(v: Text): Text {
    LongBytes(if v == [] then [0] else v)
  }

  function ValuesBytes(vs: seq<Text>): Text {
    if vs == [] then [] else ValueBytes(vs[0]) + ValuesBytes(vs[1..])
  }

  function ShortsBytes(ts: seq<Text>): Text {
    if ts == [] then [] else ShortBytes(ts[0]) + ShortsBytes(ts[1..])
  }

  function OrNone<T>(o: Option<seq<T>>): seq<T> {
    if o.Some? then o.value else []
  }

  function CountedBytes(ts: seq<Text>): Text {
    [|ts| % 256] + ShortsBytes(ts[..|ts| % 256])
  }

  function FunctionBytes(f: UserFunction): Text {
    [f.kind % 256, f.flags % 256]
    + (ShortBytes(OrNone(f.packname)) + (CountedBytes(OrNone(f.parameters)) + LongBytes(OrNone(f.body))))
  }

  function ContentBytes(c: Content): Text {
    match c
    case Strings(vs) => IntBytes(|vs|) + ValuesBytes(vs)
    case Primitive(_) => []
    case Binary(block) => LongBytes(OrNone(block))
    case Function(f) => FunctionBytes(f)
  }

  /** `write_symbol`, for a symbol without machine code. */
  function SymBytes(sym: Sym): Text {
    ShortBytes(sym.name) +
    ([TypeOf(sym.content)] + (IntBytes(Cleared(Cleared(sym.flags, FLAGGED), MACH_RES)) + ContentBytes(sym.content)))
  }

  function SymsBytes(syms: seq<Sym>): Text {
    if syms == [] then [] else SymBytes(syms[0]) + SymsBytes(syms[1..])
  }

  // ---------------------------------------------------------------- what is read

  datatype Parsed<T> = Bad | Got(value: T, rest: Text)

  function ParseBytes(s: Text, n: int): Parsed<Text> {
    if 0 <= n <= |s| then Got(s[..n], s[n..]) else Bad
  }

  function IntOf(b0: Byte, b1: Byte, b2: Byte, b3: Byte): int {
    var u := b3 * 0x100_0000 + b2 * 0x1_0000 + b1 * 0x100 + b0;
    if u >= 0x8000_0000 then u - 0x1_0000_0000 else u
  }

  /** `read_integer`. */
  function ParseInt(s: Text): Parsed<int> {
    if |s| < 4 then Bad else Got(IntOf(s[0], s[1], s[2], s[3]), s[4..])
  }

  function ParseByte(s: Text): Parsed<Byte> {
    if s == [] then Bad else Got(s[0], s[1..])
  }

  /** The C string that begins a block of bytes. */
  function UpToNul(data: Text): Text {
    if data == [] || data[0] == 0 then [] else [data[0]] + UpToNul(data[1..])
  }

  function ParseShort(s: Text): Parsed<Text> {
    match ParseByte(s)
    case Bad => Bad
    case Got(n, s1) =>
      match ParseBytes(s1, n)
      case Bad => Bad
      case Got(data, s2) => Got(UpToNul(data), s2)
  }

  function ParseLong(s: Text): Parsed<Text> {
    match ParseInt(s)
    case Bad => Bad
    case Got(n, s1) =>
      match ParseBytes(s1, n)
      case Bad => Bad
      case Got(data, s2) => Got(UpToNul(data), s2)
  }

  function ParseLongs(s: Text, n: int): Parsed<seq<Text>>
    decreases if n < 0 then 0 else n
  {
    if n <= 0 then Got([], s)
    else
      match ParseLong(s)
      case Bad => Bad
      case Got(t, s1) =>
        match ParseLongs(s1, n - 1)
        case Bad => Bad
        case Got(ts, s2) => Got([t] + ts, s2)
  }

  function ParseShorts(s: Text, n: int): Parsed<seq<Text>>
    decreases if n < 0 then 0 else n
  {
    if n <= 0 then Got([], s)
    else
      match ParseShort(s)
      case Bad => Bad
      case Got(t, s1) =>
        match ParseShorts(s1, n - 1)
        case Bad => Bad
        case Got(ts, s2) => Got([t] + ts, s2)
  }

  /** A count in one byte, and that many short strings; none at all is a null pointer. */
  function ParseCounted(s: Text): Parsed<Option<seq<Text>>> {
    match ParseByte(s)
    case Bad => Bad
    case Got(n, s1) =>
      match ParseShorts(s1, n)
      case Bad => Bad
      case Got(ts, s2) => Got(if n == 0 then None else Some(ts), s2)
  }

  function ParseFunction(s: Text, name: Text): Parsed<UserFunction> {
    if |s| < 3 then Bad
    else
      match ParseShort(s[2..])
      case Bad => Bad
      case Got(packname, s1) =>
        match ParseCounted(s1)
        case Bad => Bad
        case Got(parameters, s2) =>
          match ParseLong(s2)
          case Bad => Bad
          case Got(body, s3) =>
            Got(UserFunction(s[0], s[1], 0, name, Some(body), if s[2] == 0 then None else Some(packname),
                             parameters, []), s3)
  }

  /** What `read_symbol` makes of the part that depends on the type; the block of a binary symbol is
      read and dropped. */
  function ParseContent(s: Text, kind: Byte, name: Text): Parsed<Content> {
    match kind
    case 0 => (
      match ParseInt(s)
      case Bad => Bad
      case Got(n, s1) =>
        match ParseLongs(s1, n)
        case Bad => Bad
        case Got(vs, s2) => Got(Strings(vs), s2)
    )
    case 1 => Got(Primitive(0), s)
    case 2 => (
      match ParseLong(s)
      case Bad => Bad
      case Got(_, s1) => Got(Binary(None), s1)
    )
    case 3 => (
      match ParseFunction(s, name)
      case Bad => Bad
      case Got(f, s1) => Got(Function(f), s1)
    )
    case _ => Bad
  }

  /** `read_symbol`. */
  function ParseSym(s: Text): Parsed<Sym> {
    match ParseShort(s)
    case Bad => Bad
    case Got(name, s1) =>
      match ParseByte(s1)
      case Bad => Bad
      case Got(kind, s2) =>
        match ParseInt(s2)
        case Bad => Bad
        case Got(flags, s3) =>
          match ParseContent(s3, kind, name)
          case Bad => Bad
          case Got(content, s4) => Got(Sym(name, flags, content), s4)
  }

  function ParseSyms(s: Text, n: int): Parsed<seq<Sym>>
    decreases if n < 0 then 0 else n
  {
    if n <= 0 then Got([], s)
    else
      match ParseSym(s)
      case Bad => Bad
      case Got(sym, s1) =>
        match ParseSyms(s1, n - 1)
        case Bad => Bad
        case Got(syms, s2) => Got([sym] + syms, s2)
  }

  // ---------------------------------------------------------------- what comes back

  predicate Int32(n: int) {
    -0x8000_0000 <= n < 0x8000_0000
  }

  predicate IsShort(t: Text) {
    IsText(t) && |t| < 256
  }

  /** The symbol can be written and read without loss: names and parameters of at most 255 bytes, and
      so on. */
  predicate Writable(sym: Sym) {
    && IsShort(sym.name) && Int32(sym.flags)
    && match sym.content
       case Strings(vs) => Int32(|vs|) && forall k :: 0 <= k < |vs| ==> IsText(vs[k]) && Int32(|vs[k]|)
       case Primitive(_) => true
       case Binary(block) => Int32(|OrNone(block)|)
       case Function(f) =>
         && 0 <= f.kind < 256 && 0 <= f.flags < 256 && IsShort(OrNone(f.packname))
         && |OrNone(f.parameters)| < 256 && IsText(OrNone(f.body)) && Int32(|OrNone(f.body)|)
         && forall k :: 0 <= k < |OrNone(f.parameters)| ==> IsShort(OrNone(f.parameters)[k])
  }

  /** What is read for it. Strings and user functions come back, except that a function without a body
      gets an empty one, empty lists and names become null, and the documentation is lost; nothing is
      written for primitives, and the block of a binary symbol is lost. */
  function Restored(sym: Sym): Sym {
    Sym(sym.name, Cleared(Cleared(sym.flags, FLAGGED), MACH_RES),
        match sym.content
        case Strings(vs) => Strings(vs)
        case Primitive(_) => Primitive(0)
        case Binary(_) => Binary(None)
        case Function(f) =>
          Function(UserFunction(f.kind, f.flags, 0, sym.name, Some(OrNone(f.body)),
                                if OrNone(f.packname) == [] then None else f.packname,
                                if OrNone(f.parameters) == [] then None else f.parameters, [])))
  }

  lemma IntRoundTrip(n: int, rest: Text)
    requires Int32(n)
    ensures ParseInt(IntBytes(n) + rest) == Got(n, rest)
  {
    var b := IntBytes(n);
    var s := b + rest;
    assert s[0] == b[0] && s[1] == b[1] && s[2] == b[2] && s[3] == b[3] && s[4..] == rest;
    IntOfBytes(n, n / 0x100, n / 0x100 / 0x100, n / 0x100 / 0x100 / 0x100);
  }

  lemma IntOfBytes(n: int, n1: int, n2: int, n3: int)
    requires Int32(n) && n1 == n / 0x100 && n2 == n1 / 0x100 && n3 == n2 / 0x100
    ensures IntOf(n % 0x100, n1 % 0x100, n2 % 0x100, n3 % 0x100) == n
  {
    assert n == n1 * 0x100 + n % 0x100;
    assert n1 == n2 * 0x100 + n1 % 0x100;
    assert n2 == n3 * 0x100 + n2 % 0x100;
    assert -0x80 <= n3 < 0x80;
    assert n3 % 0x100 == if n3 < 0 then n3 + 0x100 else n3;
  }

  lemma {:induction false} UpToNulOfText(t: Text)
    ensures UpToNul(t + [0]) == UpToNul(t) && (IsText(t) ==> UpToNul(t) == t)
    decreases |t|
  {
    if t != [] {
      assert (t + [0])[1..] == t[1..] + [0];
      UpToNulOfText(t[1..]);
    }
  }

  /** One byte for the length is enough if and only if the length fits. */
  lemma ShortRoundTrip(t: Text, rest: Text)
    requires IsText(t)
    ensures ParseShort(ShortBytes(t) + rest) == Got(t, rest) <==> |t| < 256
  {
    var n := |t| % 256;
    var s := ShortBytes(t) + rest;
    assert s[1..] == t[..n] + rest;
    assert s[1..][..n] == t[..n] && s[1..][n..] == rest;
    UpToNulOfText(t[..n]);
    assert ParseShort(s) == Got(t[..n], rest);
    assert |t| < 256 ==> t[..n] == t;
    assert |t| >= 256 ==> |t[..n]| < |t|;
  }

  lemma LongRoundTrip(t: Text, rest: Text)
    requires Int32(|t|)
    ensures ParseLong(LongBytes(t) + rest) == Got(UpToNul(t), rest)
  {
    hide IntBytes, ParseInt, UpToNul;
    assert LongBytes(t) + rest == IntBytes(|t|) + (t + rest);
    IntRoundTrip(|t|, t + rest);
    assert (t + rest)[..|t|] == t && (t + rest)[|t|..] == rest;
  }

  lemma ValueRoundTrip(v: Text, rest: Text)
    requires IsText(v) && Int32(|v|)
    ensures ParseLong(ValueBytes(v) + rest) == Got(v, rest)
  {
    LongRoundTrip(if v == [] then [0] else v, rest);
    UpToNulOfText(v);
  }

  lemma {:induction false} ValuesRoundTrip(vs: seq<Text>, rest: Text)
    requires forall k :: 0 <= k < |vs| ==> IsText(vs[k]) && Int32(|vs[k]|)
    ensures ParseLongs(ValuesBytes(vs) + rest, |vs|) == Got(vs, rest)
    decreases |vs|
  {
    if vs == [] {
      assert ValuesBytes(vs) + rest == rest;
    } else {
      hide ValueBytes, ParseLong, IsText;
      Regroup(ValueBytes(vs[0]), ValuesBytes(vs[1..]), rest);
      ValueRoundTrip(vs[0], ValuesBytes(vs[1..]) + rest);
      ValuesRoundTrip(vs[1..], rest);
      assert vs == [vs[0]] + vs[1..];
    }
  }

  lemma {:induction false} ShortsRoundTrip(ts: seq<Text>, rest: Text)
    requires forall k :: 0 <= k < |ts| ==> IsShort(ts[k])
    ensures ParseShorts(ShortsBytes(ts) + rest, |ts|) == Got(ts, rest)
    decreases |ts|
  {
    hide ShortBytes, ShortsBytes, ParseShort, ParseShorts, IsText;
    if ts == [] {
      NoShorts(ts, rest);
    } else {
      var t, tail := ts[0], ts[1..];
      var s1 := ShortsBytes(tail) + rest;
      ShortsHead(ts);
      Regroup(ShortBytes(t), ShortsBytes(tail), rest);
      ShortRoundTrip(t, s1);
      ShortsRoundTrip(tail, rest);
      ParseShortsStep(ShortBytes(t) + s1, |ts|, t, s1, tail, rest);
      assert ts == [t] + tail;
    }
  }

  lemma NoShorts(ts: seq<Text>, rest: Text)
    requires ts == []
    ensures ParseShorts(ShortsBytes(ts) + rest, |ts|) == Got(ts, rest)
  {
    assert ShortsBytes(ts) + rest == rest;
  }

  lemma ShortsHead(ts: seq<Text>)
    requires ts != []
    ensures ShortsBytes(ts) == ShortBytes(ts[0]) + ShortsBytes(ts[1..])
  {
  }

  lemma ParseShortsStep(s: Text, n: int, t: Text, s1: Text, ts: seq<Text>, s2: Text)
    requires n > 0 && ParseShort(s) == Got(t, s1) && ParseShorts(s1, n - 1) == Got(ts, s2)
    ensures ParseShorts(s, n) == Got([t] + ts, s2)
  {
  }

  lemma CountedRoundTrip(ts: seq<Text>, rest: Text)
    requires |ts| < 256 && forall k :: 0 <= k < |ts| ==> IsShort(ts[k])
    ensures ParseCounted(CountedBytes(ts) + rest) == Got(if ts == [] then None else Some(ts), rest)
  {
    hide ShortsBytes, ParseShorts, IsText;
    var s := CountedBytes(ts) + rest;
    assert ts[..|ts| % 256] == ts;
    assert s[1..] == ShortsBytes(ts) + rest;
    ShortsRoundTrip(ts, rest);
  }

  lemma FunctionRoundTrip(f: UserFunction, name: Text, rest: Text)
    requires Writable(Sym(name, 0, Function(f)))
    ensures ParseFunction(FunctionBytes(f) + rest, name) == Got(Restored(Sym(name, 0, Function(f))).content.fun, rest)
  {
    hide ShortBytes, CountedBytes, LongBytes, ParseShort, ParseCounted, ParseLong, IsText, UpToNul;
    var packname, parameters, body := OrNone(f.packname), OrNone(f.parameters), OrNone(f.body);
    var s := FunctionBytes(f) + rest;
    var s2 := LongBytes(body) + rest;
    var s1 := CountedBytes(parameters) + s2;
    assert s == [f.kind % 256, f.flags % 256] + (ShortBytes(packname) + s1);
    assert s[2..] == ShortBytes(packname) + s1;
    ShortRoundTrip(packname, s1);
    ShortStart(packname);
    assert s[2] == |packname|;
    CountedRoundTrip(parameters, s2);
    LongRoundTrip(body, rest);
    UpToNulOfText(body);
  }

  lemma ShortStart(t: Text)
    requires |t| < 256
    ensures |ShortBytes(t)| > 0 && ShortBytes(t)[0] == |t|
  {
  }

  lemma ContentRoundTrip(sym: Sym, rest: Text)
    requires Writable(sym)
    ensures ParseContent(ContentBytes(sym.content) + rest, TypeOf(sym.content), sym.name)
            == Got(Restored(sym).content, rest)
  {
    hide ParseFunction, FunctionBytes, ParseLongs, ValuesBytes, ParseInt, IntBytes, LongBytes, ParseLong, IsText;
    match sym.content
    case Strings(vs) =>
      assert ContentBytes(sym.content) + rest == IntBytes(|vs|) + (ValuesBytes(vs) + rest);
      IntRoundTrip(|vs|, ValuesBytes(vs) + rest);
      ValuesRoundTrip(vs, rest);
    case Primitive(_) =>
      assert ContentBytes(sym.content) + rest == rest;
    case Binary(block) => LongRoundTrip(OrNone(block), rest);
    case Function(f) => FunctionRoundTrip(f, sym.name, rest);
  }

  lemma ClearedIsInt32(n: int)
    requires Int32(n)
    ensures Int32(Cleared(Cleared(n, FLAGGED), MACH_RES))
  {
  }

  /** What `read_symbol` reads is what `write_symbol` wrote, and no byte more. */
  lemma SymRoundTrip(sym: Sym, rest: Text)
    requires Writable(sym)
    ensures ParseSym(SymBytes(sym) + rest) == Got(Restored(sym), rest)
  {
    hide ParseContent, ContentBytes, ParseInt, IntBytes, ShortBytes, ParseShort, IsText, Cleared;
    var flags := Cleared(Cleared(sym.flags, FLAGGED), MACH_RES);
    var s3 := ContentBytes(sym.content) + rest;
    var s2 := IntBytes(flags) + s3;
    var s1 := [TypeOf(sym.content)] + s2;
    assert SymBytes(sym) + rest == ShortBytes(sym.name) + s1;
    ShortRoundTrip(sym.name, s1);
    assert s1[1..] == s2;
    ClearedIsInt32(sym.flags);
    IntRoundTrip(flags, s3);
    ContentRoundTrip(sym, rest);
  }

  lemma {:induction false} SymsRoundTrip(syms: seq<Sym>, rest: Text)
    requires forall k :: 0 <= k < |syms| ==> Writable(syms[k])
    ensures ParseSyms(SymsBytes(syms) + rest, |syms|) == Got(RestoredAll(syms), rest)
    decreases |syms|
  {
    hide ParseSym, SymBytes, Writable, Restored;
    if syms == [] {
      assert SymsBytes(syms) + rest == rest;
    } else {
      Regroup(SymBytes(syms[0]), SymsBytes(syms[1..]), rest);
      SymRoundTrip(syms[0], SymsBytes(syms[1..]) + rest);
      SymsRoundTrip(syms[1..], rest);
    }
  }

  function RestoredAll(syms: seq<Sym>): seq<Sym> {
    if syms == [] then [] else [Restored(syms[0])] + RestoredAll(syms[1..])
  }

  // ---------------------------------------------------------------- packages

  type Table = map<Text, Sym>

  /** The packages that have names. */
  type Packages = map<Text, Table>

  /** A name that is neither empty nor made of carats, so that it names one package for good. */
  predicate Ordinary(name: Text) {
    exists k :: 0 <= k < |name| && name[k] != 0x5E
  }

  datatype Dump = Dump(name: Text, syms: seq<Sym>)

  predicate Dumpable(d: Dump) {
    && IsShort(d.name) && Ordinary(d.name) && Int32(|d.syms|)
    && (forall k :: 0 <= k < |d.syms| ==> Writable(d.syms[k]))
    && forall j, k :: 0 <= j < k < |d.syms| ==> d.syms[j].name != d.syms[k].name
  }

  /** The header and the records. */
  function PackageBytes(d: Dump): Text {
    ShortBytes(d.name) + (IntBytes(|d.syms|) + SymsBytes(d.syms))
  }

  function DumpsBytes(ds: seq<Dump>): Text {
    if ds == [] then [] else PackageBytes(ds[0]) + DumpsBytes(ds[1..])
  }

  /** Reads one package; `None` at the end of the stream. */
  function ParsePackage(s: Text): Parsed<Option<Dump>> {
    if s == [] then Got(None, s)
    else
      match ParseShort(s)
      case Bad => Bad
      case Got(name, s1) =>
        match ParseInt(s1)
        case Bad => Bad
        case Got(n, s2) =>
          match ParseSyms(s2, n)
          case Bad => Bad
          case Got(syms, s3) => Got(Some(Dump(name, syms)), s3)
  }

  function TableOf(packages: Packages, name: Text): Table {
    if name in packages then packages[name] else map[]
  }

  /** Every symbol read takes the place of the one there. */
  function Installed(table: Table, syms: seq<Sym>): Table
    decreases |syms|
  {
    if syms == [] then table else Installed(table[syms[0].name := syms[0]], syms[1..])
  }

  function Loaded(packages: Packages, name: Text, syms: seq<Sym>): Packages {
    packages[name := Installed(TableOf(packages, name), syms)]
  }

  lemma PackageRoundTrip(d: Dump, rest: Text)
    requires Dumpable(d)
    ensures ParsePackage(PackageBytes(d) + rest) == Got(Some(Dump(d.name, RestoredAll(d.syms))), rest)
  {
    hide ParseShort, ShortBytes, ParseInt, IntBytes, ParseSyms, SymsBytes, IsText, Writable, RestoredAll;
    var s2 := SymsBytes(d.syms) + rest;
    var s1 := IntBytes(|d.syms|) + s2;
    assert PackageBytes(d) + rest == ShortBytes(d.name) + s1;
    ShortStart(d.name);
    ShortRoundTrip(d.name, s1);
    IntRoundTrip(|d.syms|, s2);
    SymsRoundTrip(d.syms, rest);
  }

  function LoadedAll(packages: Packages, ds: seq<Dump>): Packages
    decreases |ds|
  {
    if ds == [] then packages else LoadedAll(Loaded(packages, ds[0].name, RestoredAll(ds[0].syms)), ds[1..])
  }

  /** `symbol_load_package`, called until the stream is at its end. */
  function LoadStream(s: Text, packages: Packages): Option<Packages>
    decreases |s|
  {
    match ParsePackage(s)
    case Bad => None
    case Got(None, _) => Some(packages)
    case Got(Some(d), rest) => if |rest| < |s| then LoadStream(rest, Loaded(packages, d.name, d.syms)) else None
  }

  /** Loading reads all packages that were written, and is at the end of the stream after the last. */
  lemma {:induction false} StreamRoundTrip(ds: seq<Dump>, packages: Packages)
    requires forall k :: 0 <= k < |ds| ==> Dumpable(ds[k])
    ensures LoadStream(DumpsBytes(ds), packages) == Some(LoadedAll(packages, ds))
    decreases |ds|
  {
    hide PackageBytes, ParsePackage, Dumpable, Loaded, RestoredAll;
    if ds == [] {
      NothingToParse();
    } else {
      PackageRoundTrip(ds[0], DumpsBytes(ds[1..]));
      PackageNotEmpty(ds[0]);
      StreamRoundTrip(ds[1..], Loaded(packages, ds[0].name, RestoredAll(ds[0].syms)));
    }
  }

  lemma NothingToParse()
    ensures ParsePackage([]) == Got(None, [])
  {
  }

  lemma PackageNotEmpty(d: Dump)
    ensures |PackageBytes(d)| > 0
  {
  }

  // ---------------------------------------------------------------- which symbols are there afterwards

  function Find(packages: Packages, name: Text, symbol: Text): Option<Sym> {
    if name in packages && symbol in packages[name] then Some(packages[name][symbol]) else None
  }

  lemma {:induction false} InstalledIs(table: Table, syms: seq<Sym>, name: Text)
    requires forall j, k :: 0 <= j < k < |syms| ==> syms[j].name != syms[k].name
    ensures var t := Installed(table, RestoredAll(syms));
            && (forall k :: 0 <= k < |syms| && syms[k].name == name ==> name in t && t[name] == Restored(syms[k]))
            && ((forall k :: 0 <= k < |syms| ==> syms[k].name != name) ==>
                  (name in t <==> name in table) && (name in t ==> t[name] == table[name]))
    decreases |syms|
  {
    if syms != [] {
      var r := Restored(syms[0]);
      InstalledIs(table[r.name := r], syms[1..], name);
      assert RestoredAll(syms)[1..] == RestoredAll(syms[1..]);
      assert Installed(table, RestoredAll(syms)) == Installed(table[r.name := r], RestoredAll(syms[1..]));
    }
  }

  lemma LoadedIs(packages: Packages, d: Dump, name: Text, symbol: Text)
    requires Dumpable(d)
    ensures var p := Loaded(packages, d.name, RestoredAll(d.syms));
            && (name != d.name ==> Find(p, name, symbol) == Find(packages, name, symbol))
            && (name == d.name ==>
                  && (forall k :: 0 <= k < |d.syms| && d.syms[k].name == symbol ==>
                        Find(p, name, symbol) == Some(Restored(d.syms[k])))
                  && ((forall k :: 0 <= k < |d.syms| ==> d.syms[k].name != symbol) ==>
                        Find(p, name, symbol) == Find(packages, name, symbol)))
  {
    InstalledIs(TableOf(packages, d.name), d.syms, symbol);
  }

  /** Writing packages and loading them restores every symbol written, into whatever packages there are
      by then, and leaves every other symbol of those alone. */
  lemma {:induction false} DumpThenLoad(ds: seq<Dump>, packages: Packages, name: Text, symbol: Text)
    requires forall k :: 0 <= k < |ds| ==> Dumpable(ds[k])
    requires forall j, k :: 0 <= j < k < |ds| ==> ds[j].name != ds[k].name
    ensures LoadStream(DumpsBytes(ds), packages).Some?
    ensures var p := LoadStream(DumpsBytes(ds), packages).value;
            && (forall i, k :: 0 <= i < |ds| && ds[i].name == name && 0 <= k < |ds[i].syms| &&
                                ds[i].syms[k].name == symbol ==>
                  Find(p, name, symbol) == Some(Restored(ds[i].syms[k])))
            && ((forall i, k :: 0 <= i < |ds| && ds[i].name == name && 0 <= k < |ds[i].syms| ==>
                                 ds[i].syms[k].name != symbol) ==>
                  Find(p, name, symbol) == Find(packages, name, symbol))
  {
    StreamRoundTrip(ds, packages);
    LoadedAllIs(ds, packages, name, symbol);
  }

  lemma {:induction false} LoadedAllIs(ds: seq<Dump>, packages: Packages, name: Text, symbol: Text)
    requires forall k :: 0 <= k < |ds| ==> Dumpable(ds[k])
    requires forall j, k :: 0 <= j < k < |ds| ==> ds[j].name != ds[k].name
    ensures var p := LoadedAll(packages, ds);
            && (forall i, k :: 0 <= i < |ds| && ds[i].name == name && 0 <= k < |ds[i].syms| &&
                                ds[i].syms[k].name == symbol ==>
                  Find(p, name, symbol) == Some(Restored(ds[i].syms[k])))
            && ((forall i, k :: 0 <= i < |ds| && ds[i].name == name && 0 <= k < |ds[i].syms| ==>
                                 ds[i].syms[k].name != symbol) ==>
                  Find(p, name, symbol) == Find(packages, name, symbol))
    decreases |ds|
  {
    hide Dumpable, Loaded, RestoredAll, Restored, Find;
    if ds != [] {
      LoadedIs(packages, ds[0], name, symbol);
      LoadedAllIs(ds[1..], Loaded(packages, ds[0].name, RestoredAll(ds[0].syms)), name, symbol);
    }
  }
}

/** Dynamic binding: packages of variables, the stack of packages, `mhtml_let`, `in-package` and
    `with-local-package`, and the jumps that leave them early (libmhtml/parser.c,
    libmhtml/packfuncs.c, with the packages and symbols of libmhtml/symbols.c). Names are as the
    symbol tables compare them: 7-bit characters, translated to upper case. */
module Bindings {
  import opened Options
  import ArrayVars

  /** A variable holds a list of strings, or something else such as a function. */
  datatype Content = Strings(values: seq<string>) | Other(what: int)

  datatype Symbol = Symbol(content: Content, readonly: bool, modified: bool)

  type Table = map<string, Symbol>

  /** Anonymous packages have no name. */
  datatype Package = Package(name: Option<string>, table: Table)

  /** All packages in order of creation, `CurrentPackage`, `PackagePDL`, and `page_jmp_buffer`: the
      number of the `setjmp` that a jump goes to. `frames` counts the `setjmp`s so far. */
  datatype State = State(packages: seq<Package>, current: Option<nat>, stack: seq<Option<nat>>, handler: nat,
                         frames: nat)

  datatype Binding = Binding(name: string, symbol: Symbol)

  datatype Program = Skip
                   | Then(first: Program, rest: Program)
                   | Assign(pack: Option<string>, name: string, value: string)
                   | Let(vars: seq<Binding>, body: Program)
                   | InPackage(name: string, inner: Program)
                   | WithLocal(inner: Program)
                   | ReturnPage

  /** `longjmp (page_jmp_buffer)` goes to the `setjmp` that the buffer holds. */
  datatype Outcome = Normal | Jump(target: nat)

  const DEFAULT_PACKAGE_NAME := "DEFAULT"

  // ---------------------------------------------------------------- packages

  predicate AllCarats(name: string) {
    forall k :: 0 <= k < |name| ==> name[k] == '^'
  }

  /** The first package called `name`, from position `k` on. */
  function FirstNamed(packages: seq<Package>, name: string, k: nat): (found: Option<nat>)
    requires k <= |packages|
    ensures found.Some? ==> k <= found.value < |packages| && packages[found.value].name == Some(name)
    ensures found.Some? ==> forall j :: k <= j < found.value ==> packages[j].name != Some(name)
    ensures found.None? ==> forall j :: k <= j < |packages| ==> packages[j].name != Some(name)
    decreases |packages| - k
  {
    if k == |packages| then None
    else if packages[k].name == Some(name) then Some(k)
    else FirstNamed(packages, name, k + 1)
  }

  /** `symbol_lookup_package`. A name made of carats counts back on the stack. */
  function Lookup(s: State, name: string): Option<nat> {
    if name == "" then s.current
    else if AllCarats(name) then
      if |name| <= |s.stack| then s.stack[|s.stack| - |name|] else None
    else FirstNamed(s.packages, name, 0)
  }

  /** `symbol_push_package`. */
  function Push(s: State, p: nat): State {
    s.(stack := s.stack + [s.current], current := Some(p))
  }

  /** `symbol_pop_package`: nothing becomes current when nothing was. */
  function Pop(s: State): State {
    if s.stack == [] then s
    else
      var top := s.stack[|s.stack| - 1];
      s.(stack := s.stack[..|s.stack| - 1], current := if top.Some? then top else s.current)
  }

  /** Pushing and popping gives back the current package if and only if there was one. */
  lemma PopAfterPush(s: State, p: nat)
    ensures Pop(Push(s, p)).stack == s.stack
    ensures s.current != Some(p) ==> (Pop(Push(s, p)).current == s.current <==> s.current.Some?)
  {
    assert Push(s, p).stack[..|s.stack|] == s.stack;
  }

  predicate Known(s: State, p: Option<nat>) {
    p.Some? && p.value < |s.packages|
  }

  /** There is a current package, as there is from the first variable on. */
  predicate Valid(s: State) {
    && Known(s, s.current) && s.handler <= s.frames
    && forall k :: 0 <= k < |s.stack| ==> Known(s, s.stack[k])
  }

  /** The packages are those of `s`, perhaps with other variables in them, and perhaps more. */
  predicate Grown(s: State, s': State) {
    && |s.packages| <= |s'.packages|
    && forall k :: 0 <= k < |s.packages| ==> s'.packages[k].name == s.packages[k].name
  }

  /** `s'` stands where `s` does. */
  predicate Balanced(s: State, s': State) {
    && Valid(s') && Grown(s, s')
    && s'.current == s.current && s'.stack == s.stack && s'.handler == s.handler && s'.frames >= s.frames
  }

  /** `symbol_get_package`: a package that is not found, or has no name, is created. */
  function Get(s: State, name: Option<string>): (r: (State, nat))
    requires Valid(s)
    ensures Balanced(s, r.0) && r.1 < |r.0.packages|
  {
    var found := if name.Some? then Lookup(s, name.value) else None;
    if found.Some? then (s, found.value)
    else (s.(packages := s.packages + [Package(name, map[])]), |s.packages|)
  }

  // ---------------------------------------------------------------- variables

  /** A variable just interned. */
  const FRESH := Symbol(Strings([]), false, true)

  function Value(table: Table, name: string): Symbol {
    if name in table then table[name] else FRESH
  }

  /** `symbol_copy`. */
  function Copied(symbol: Symbol): Symbol {
    symbol.(modified := true)
  }

  /** Setting the value of a variable; one that is read-only is only interned. */
  function Assigned(table: Table, name: string, value: string): Table {
    var symbol := Value(table, name);
    if symbol.readonly then table[name := symbol]
    else
      var values := if symbol.content.Strings? then symbol.content.values else [];
      table[name := Symbol(Strings(ArrayVars.StoredAt(values, ArrayVars.Cell(0), value)), false, true)]
  }

  function WithTable(s: State, p: nat, table: Table): State
    requires p < |s.packages|
  {
    s.(packages := s.packages[p := s.packages[p].(table := table)])
  }

  predicate DistinctNames(vars: seq<Binding>) {
    forall j, k :: 0 <= j < k < |vars| ==> vars[j].name != vars[k].name
  }

  /** The table with the first `n` variables bound. */
  function Bound(table: Table, vars: seq<Binding>, n: nat): Table
    requires n <= |vars|
  {
    if n == 0 then table else Bound(table, vars, n - 1)[vars[n - 1].name := Copied(vars[n - 1].symbol)]
  }

  /** What the first `n` variables were. */
  function Saved(table: Table, vars: seq<Binding>, n: nat): Table
    requires n <= |vars|
  {
    if n == 0 then map[] else Saved(table, vars, n - 1)[vars[n - 1].name := Copied(Value(table, vars[n - 1].name))]
  }

  // ---------------------------------------------------------------- programs

  /** The variables of a package are in one table: no name is bound twice. */
  predicate Proper(p: Program) {
    match p
    case Then(first, rest) => Proper(first) && Proper(rest)
    case Let(vars, body) => DistinctNames(vars) && Proper(body)
    case InPackage(_, inner) => Proper(inner)
    case WithLocal(inner) => Proper(inner)
    case _ => true
  }

  /** Saves the jump buffer and sets it to a new `setjmp`. */
  function Armed(s: State): State {
    s.(handler := s.frames + 1, frames := s.frames + 1)
  }

  /** The state in which the body of a `Let` is run. */
  function Entered(vars: seq<Binding>, s: State): State
    requires Valid(s)
  {
    var pack := s.current.value;
    Armed(WithTable(s, pack, Bound(s.packages[pack].table, vars, |vars|)))
  }

  /** The end of `mhtml_let`: the jump buffer is put back, and the saved variables are copied into the
      package that now has the name of the one they came from. */
  function Left(s: State, saved: Table, s3: State): (r: State)
    requires Valid(s) && Valid(s3) && s3.current == s.current && s.handler <= s3.frames
    ensures Balanced(s3.(handler := s.handler), r)
  {
    var pack := s.current.value;
    var s4 := s3.(handler := s.handler);
    var name := s.packages[pack].name;
    var (s5, pack') := if name.Some? then Get(s4, name) else (s4, pack);
    WithTable(s5, pack', s5.packages[pack'].table + saved)
  }

  /** What `in-package` calls the package: the default one, a new anonymous one, or the one named. */
  function PackageOf(name: string): Option<string> {
    if name == "" then Some(DEFAULT_PACKAGE_NAME) else if name == "LOCAL" then None else Some(name)
  }

  /** Running a program. However it ends, the current package, the stack of packages and the jump
      buffer are what they were; and when it ends with a jump, that goes to the innermost `setjmp`
      still active outside of it, namely the one the buffer held at the start. */
  function Exec(p: Program, s: State): (r: (State, Outcome))
    requires Valid(s)
    ensures Balanced(s, r.0)
    ensures r.1.Jump? ==> r.1.target == s.handler
    decreases p, 0
  {
    match p
    case Skip => (s, Normal)
    case Then(first, rest) =>
      var (s1, out) := Exec(first, s);
      if out.Jump? then (s1, out) else Exec(rest, s1)
    case Assign(pack, name, value) =>
      var (s1, k) := if pack.Some? then Get(s, pack) else (s, s.current.value);
      (WithTable(s1, k, Assigned(s1.packages[k].table, name, value)), Normal)
    case Let(vars, body) =>
      var s2 := Entered(vars, s);
      var (s3, out) := Exec(body, s2);
      if out.Jump? && out.target != s2.handler then (s3, out)
      else
        var s6 := Left(s, Saved(s.packages[s.current.value].table, vars, |vars|), s3);
        (s6, if out.Jump? then Jump(s6.handler) else Normal)
    case InPackage(name, inner) => Within(PackageOf(name), inner, s)
    case WithLocal(inner) => Within(None, inner, s)
    case ReturnPage => (s, Jump(s.handler))
  }

  /** The body runs with another package current. */
  function Within(name: Option<string>, inner: Program, s: State): (r: (State, Outcome))
    requires Valid(s)
    ensures Balanced(s, r.0)
    ensures r.1.Jump? ==> r.1.target == s.handler
    decreases inner, 1
  {
    var (s1, k) := Get(s, name);
    var s2 := Armed(Push(s1, k));
    var (s3, out) := Exec(inner, s2);
    if out.Jump? && out.target != s2.handler then (s3, out)
    else
      var s4 := Pop(s3).(handler := s.handler);
      (s4, if out.Jump? then Jump(s4.handler) else Normal)
  }

  // ---------------------------------------------------------------- what is restored

  /** The name of the current package, if it has one, leads back to it. */
  predicate SelfNamed(s: State)
    requires Valid(s)
  {
    var name := s.packages[s.current.value].name;
    name.Some? ==> Lookup(s, name.value) == s.current
  }

  /** A name goes on leading to the same package while packages are only added. */
  lemma LookupLasts(s: State, s': State, name: string)
    requires Valid(s) && Grown(s, s') && s'.current == s.current && s'.stack == s.stack && Lookup(s, name).Some?
    ensures Lookup(s', name) == Lookup(s, name)
  {
    if name != "" && !AllCarats(name) {
      var k := Lookup(s, name).value;
      var found := FirstNamed(s'.packages, name, 0);
      assert s'.packages[k].name == Some(name);
      assert found.Some?;
    }
  }

  /** In the body every variable has the value it is bound to. */
  lemma {:induction false} BoundIs(table: Table, vars: seq<Binding>, n: nat, j: nat)
    requires j < n <= |vars| && DistinctNames(vars)
    ensures Value(Bound(table, vars, n), vars[j].name) == Copied(vars[j].symbol)
    decreases n
  {
    if j < n - 1 {
      BoundIs(table, vars, n - 1, j);
    }
  }

  /** So the body of a let starts with every variable bound, and with nothing else changed. */
  lemma EnteredIsBound(vars: seq<Binding>, s: State)
    requires Valid(s) && DistinctNames(vars)
    ensures var pack, s2 := s.current.value, Entered(vars, s);
            && (forall j :: 0 <= j < |vars| ==> Value(s2.packages[pack].table, vars[j].name) == Copied(vars[j].symbol))
            && (forall name :: (forall j :: 0 <= j < |vars| ==> vars[j].name != name) ==>
                  Value(s2.packages[pack].table, name) == Value(s.packages[pack].table, name))
            && s2.current == s.current && s2.stack == s.stack
            && |s2.packages| == |s.packages|
            && forall k :: 0 <= k < |s.packages| && k != pack ==> s2.packages[k] == s.packages[k]
  {
    hide Bound;
    var table := s.packages[s.current.value].table;
    forall j | 0 <= j < |vars| ensures Value(Bound(table, vars, |vars|), vars[j].name) == Copied(vars[j].symbol) {
      BoundIs(table, vars, |vars|, j);
    }
    forall name | forall j :: 0 <= j < |vars| ==> vars[j].name != name
      ensures Value(Bound(table, vars, |vars|), name) == Value(table, name)
    {
      OthersAreNotBound(table, vars, |vars|, name);
    }
  }

  lemma {:induction false} OthersAreNotBound(table: Table, vars: seq<Binding>, n: nat, name: string)
    requires n <= |vars| && forall j :: 0 <= j < n ==> vars[j].name != name
    ensures Value(Bound(table, vars, n), name) == Value(table, name)
    decreases n
  {
    if n > 0 {
      OthersAreNotBound(table, vars, n - 1, name);
    }
  }

  lemma {:induction false} SavedIs(table: Table, vars: seq<Binding>, n: nat)
    requires n <= |vars|
    ensures forall name :: name in Saved(table, vars, n) <==> exists j :: 0 <= j < n && vars[j].name == name
    ensures forall name :: name in Saved(table, vars, n) ==> Saved(table, vars, n)[name] == Copied(Value(table, name))
    decreases n
  {
    if n > 0 {
      SavedIs(table, vars, n - 1);
    }
  }

  /** The saved variables go back where they came from. */
  lemma LeftAtHome(s: State, saved: Table, s3: State)
    requires Valid(s) && SelfNamed(s) && Valid(s3) && Grown(s, s3)
    requires s3.current == s.current && s3.stack == s.stack && s.handler <= s3.frames
    ensures var pack := s.current.value;
            Left(s, saved, s3) == WithTable(s3.(handler := s.handler), pack, s3.packages[pack].table + saved)
  {
    var name := s.packages[s.current.value].name;
    if name.Some? {
      LookupLasts(s, s3.(handler := s.handler), name.value);
    }
  }

  /** What `mhtml_let` undoes. However the body ends, every variable bound has its value from before
      again, and one that did not exist is there without values; all else is as the body left it. */
  lemma LetRestores(vars: seq<Binding>, body: Program, s: State)
    requires Valid(s) && SelfNamed(s)
    ensures var pack, b, r := s.current.value, Exec(body, Entered(vars, s)).0, Exec(Let(vars, body), s).0;
            && (forall j :: 0 <= j < |vars| ==>
                  && vars[j].name in r.packages[pack].table
                  && r.packages[pack].table[vars[j].name] == Copied(Value(s.packages[pack].table, vars[j].name)))
            && (forall name :: (forall j :: 0 <= j < |vars| ==> vars[j].name != name) ==>
                  && (name in r.packages[pack].table <==> name in b.packages[pack].table)
                  && Value(r.packages[pack].table, name) == Value(b.packages[pack].table, name))
            && |r.packages| == |b.packages|
            && forall k :: 0 <= k < |b.packages| && k != pack ==> r.packages[k] == b.packages[k]
  {
    hide Left, SelfNamed, Bound;
    var pack, s2 := s.current.value, Entered(vars, s);
    var b := Exec(body, s2).0;
    var saved := Saved(s.packages[pack].table, vars, |vars|);
    var r := Exec(Let(vars, body), s).0;
    assert r == Left(s, saved, b);
    LeftAtHome(s, saved, b);
    SavedIs(s.packages[pack].table, vars, |vars|);
    assert r.packages[pack].table == b.packages[pack].table + saved;
    hide Exec, Saved;
    forall j | 0 <= j < |vars| ensures vars[j].name in saved {
    }
  }

  /** A binding is undone, whatever it binds, if and only if the name of the package leads back to it;
      otherwise the saved variables end up in another package. */
  lemma LetRestoresExactly(s: State)
    requires Valid(s)
    ensures SelfNamed(s) <==>
              forall name, symbol ::
                Value(Exec(Let([Binding(name, symbol)], Skip), s).0.packages[s.current.value].table, name)
                == Copied(Value(s.packages[s.current.value].table, name))
  {
    if SelfNamed(s) {
      forall name, symbol
        ensures Value(Exec(Let([Binding(name, symbol)], Skip), s).0.packages[s.current.value].table, name)
                == Copied(Value(s.packages[s.current.value].table, name))
      {
        var vars := [Binding(name, symbol)];
        LetRestores(vars, Skip, s);
        assert vars[0].name == name;
      }
    } else {
      var before := Value(s.packages[s.current.value].table, "X");
      var symbol := Symbol(if before.content == Other(0) then Other(1) else Other(0), false, true);
      LetLeaks(s, "X", symbol);
    }
  }

  lemma LetLeaks(s: State, name: string, symbol: Symbol)
    requires Valid(s) && !SelfNamed(s)
    ensures Value(Exec(Let([Binding(name, symbol)], Skip), s).0.packages[s.current.value].table, name) == Copied(symbol)
  {
    var vars, pack := [Binding(name, symbol)], s.current.value;
    var s2 := Entered(vars, s);
    assert Bound(s.packages[pack].table, vars, 1) == s.packages[pack].table[name := Copied(symbol)];
    assert Exec(Skip, s2) == (s2, Normal);
    var saved := Saved(s.packages[pack].table, vars, |vars|);
    assert Exec(Let(vars, Skip), s).0 == Left(s, saved, s2);
    LeftElsewhere(s, saved, s2);
  }

  /** The saved variables go somewhere else, and the package keeps the ones it has. */
  lemma LeftElsewhere(s: State, saved: Table, s3: State)
    requires Valid(s) && !SelfNamed(s) && Valid(s3) && Grown(s, s3) && |s3.packages| == |s.packages|
    requires s3.current == s.current && s3.stack == s.stack && s.handler <= s3.frames
    ensures var pack := s.current.value; Left(s, saved, s3).packages[pack] == s3.packages[pack]
  {
    var s4 := s3.(handler := s.handler);
    var name := s.packages[s.current.value].name.value;
    if Lookup(s4, name) == s.current {
      LookupLasts(s4, s, name);
    }
  }

  /** Two packages never have the same name, except for names that are made of carats. */
  predicate UniqueNames(s: State) {
    forall j, k :: 0 <= j < k < |s.packages| && s.packages[j].name.Some? && !AllCarats(s.packages[j].name.value) ==>
      s.packages[k].name != s.packages[j].name
  }

  /** So a let is undone wherever the current package does not have a name made of carats. */
  lemma OrdinaryPackageIsSelfNamed(s: State)
    requires Valid(s) && UniqueNames(s)
    requires var name := s.packages[s.current.value].name; name.Some? ==> !AllCarats(name.value)
    ensures SelfNamed(s)
  {
    var name := s.packages[s.current.value].name;
    if name.Some? {
      var found := FirstNamed(s.packages, name.value, 0);
      assert found.Some?;
    }
  }

  lemma GetKeepsNames(s: State, name: Option<string>)
    requires Valid(s) && UniqueNames(s)
    ensures UniqueNames(Get(s, name).0)
  {
  }

  lemma LeftKeepsNames(s: State, saved: Table, s3: State)
    requires Valid(s) && Valid(s3) && s3.current == s.current && s.handler <= s3.frames && UniqueNames(s3)
    ensures UniqueNames(Left(s, saved, s3))
  {
    hide Lookup;
    GetKeepsNames(s3.(handler := s.handler), s.packages[s.current.value].name);
  }

  lemma {:induction false} ExecKeepsNames(p: Program, s: State)
    requires Valid(s) && UniqueNames(s)
    ensures UniqueNames(Exec(p, s).0)
    decreases p, 0
  {
    hide Left, Within, Lookup, AllCarats;
    match p
    case Then(first, rest) =>
      ExecKeepsNames(first, s);
      if Exec(first, s).1.Normal? {
        ExecKeepsNames(rest, Exec(first, s).0);
      }
    case Assign(pack, name, value) =>
      GetKeepsNames(s, pack);
    case Let(vars, body) =>
      var s2 := Entered(vars, s);
      ExecKeepsNames(body, s2);
      LeftKeepsNames(s, Saved(s.packages[s.current.value].table, vars, |vars|), Exec(body, s2).0);
    case InPackage(name, inner) => WithinKeepsNames(PackageOf(name), inner, s);
    case WithLocal(inner) => WithinKeepsNames(None, inner, s);
    case _ =>
  }

  lemma WithinKeepsNames(name: Option<string>, inner: Program, s: State)
    requires Valid(s) && UniqueNames(s)
    ensures UniqueNames(Within(name, inner, s).0)
    decreases inner, 1
  {
    GetKeepsNames(s, name);
    var (s1, k) := Get(s, name);
    ExecKeepsNames(inner, Armed(Push(s1, k)));
  }

  /** More carats than the stack is deep create a package that is called just that, and within it the
      name leads elsewhere: the binding stays there, and the variable of the outer package is lost. */
  lemma CaratPackageLeaks(s: State, name: string, symbol: Symbol)
    requires Valid(s) && s.stack == []
    ensures var r := Exec(InPackage("^", Let([Binding(name, symbol)], Skip)), s).0;
            && |r.packages| == |s.packages| + 1
            && Value(r.packages[|s.packages|].table, name) == Copied(symbol)
            && Value(r.packages[s.current.value].table, name) == FRESH
  {
    hide Get, Push, Pop, Within, Exec, Lookup, SelfNamed;
    var inner := Let([Binding(name, symbol)], Skip);
    InPackageIs("^", inner, s);
    WithinIs(Some("^"), inner, s);
    var (s1, k) := Get(s, Some("^"));
    CaratPackage(s);
    LetElsewhere(Armed(Push(s1, k)), s.current.value, name, symbol);
    PopKeepsPackages(Exec(inner, Armed(Push(s1, k))).0);
  }

  lemma InPackageIs(name: string, inner: Program, s: State)
    requires Valid(s)
    ensures Exec(InPackage(name, inner), s) == Within(PackageOf(name), inner, s)
  {
    hide Within;
  }

  lemma PopKeepsPackages(s: State)
    ensures Pop(s).packages == s.packages
  {
  }

  /** The package called by a carat when nothing is on the stack. */
  lemma CaratPackage(s: State)
    requires Valid(s) && s.stack == []
    ensures var (s1, k) := Get(s, Some("^"));
            var s2 := Armed(Push(s1, k));
            && Valid(s2) && k == |s.packages| == |s2.packages| - 1 && s2.current == Some(k)
            && s2.packages[k] == Package(Some("^"), map[]) && Lookup(s2, "^") == s.current && !SelfNamed(s2)
  {
  }

  /** A let of one variable that does not exist, in a package whose name leads to another one. */
  lemma LetElsewhere(s: State, other: nat, name: string, symbol: Symbol)
    requires Valid(s) && !SelfNamed(s) && s.packages[s.current.value].table == map[]
    requires var own := s.packages[s.current.value].name; own.Some? && Lookup(s, own.value) == Some(other)
    requires other < |s.packages|
    ensures var r := Exec(Let([Binding(name, symbol)], Skip), s).0;
            && |r.packages| == |s.packages|
            && Value(r.packages[s.current.value].table, name) == Copied(symbol)
            && Value(r.packages[other].table, name) == FRESH
  {
    var vars, k := [Binding(name, symbol)], s.current.value;
    LetLeaks(s, name, symbol);
    var entered := Entered(vars, s);
    assert Exec(Skip, entered) == (entered, Normal);
    SavedIs(map[], vars, 1);
    assert vars[0].name == name && name in Saved(map[], vars, 1);
    LookupLasts(s, entered.(handler := s.handler), s.packages[k].name.value);
  }

  // ---------------------------------------------------------------- the interpreter

  class Interpreter {
    var packages: seq<Package>
    var current: Option<nat>
    var stack: seq<Option<nat>>
    var handler: nat
    var frames: nat

    function Now(): State
      reads this
    {
      State(packages, current, stack, handler, frames)
    }

    /** `symbol_lookup_package`. */
    method LookupPackage(name: string) returns (found: Option<nat>)
      ensures found == Lookup(Now(), name)
    {
      found := None;
      if name == "" {
        return current;
      }
      var i := 0;
      while i < |name| && name[i] == '^'
        invariant 0 <= i <= |name| && forall k :: 0 <= k < i ==> name[k] == '^'
      {
        i := i + 1;
      }
      if i != |name| {
        i := 0;
        while i < |packages|
          invariant 0 <= i <= |packages| && FirstNamed(packages, name, 0) == FirstNamed(packages, name, i)
        {
          if packages[i].name == Some(name) {
            return Some(i);
          }
          i := i + 1;
        }
      } else {
        var n: int := |stack| - i;
        if n > -1 {
          found := stack[n];
        }
      }
    }

    /** `symbol_get_package`. */
    method GetPackage(name: Option<string>) returns (p: nat)
      requires Valid(Now())
      modifies this
      ensures (Now(), p) == Get(old(Now()), name)
    {
      var found := None;
      if name.Some? {
        found := LookupPackage(name.value);
      }
      if found.None? {
        found := Some(|packages|);
        packages := packages + [Package(name, map[])];
      }
      p := found.value;
    }

    method PushPackage(p: nat)
      modifies this
      ensures Now() == Push(old(Now()), p)
    {
      stack := stack + [current];
      current := Some(p);
    }

    method PopPackage()
      modifies this
      ensures Now() == Pop(old(Now()))
    {
      if stack != [] {
        var top := stack[|stack| - 1];
        stack := stack[..|stack| - 1];
        if top.Some? {
          current := top;
        }
      }
    }

    method SetTable(p: nat, table: Table)
      requires p < |packages|
      modifies this
      ensures Now() == WithTable(old(Now()), p, table)
    {
      packages := packages[p := packages[p].(table := table)];
    }

    /** `symbol_intern_in_package`. */
    method Intern(p: nat, name: string) returns (symbol: Symbol)
      requires p < |packages|
      modifies this
      ensures symbol == Value(old(packages)[p].table, name)
      ensures Now() == WithTable(old(Now()), p, old(packages)[p].table[name := symbol])
    {
      TableTwice(Now(), p, map[], map[]);
      if name !in packages[p].table {
        SetTable(p, packages[p].table[name := FRESH]);
      } else {
        assert packages[p].table[name := packages[p].table[name]] == packages[p].table;
      }
      symbol := packages[p].table[name];
    }

    /** `symbol_copy`: what was there before is removed, not overwritten. */
    method CopySymbol(symbol: Symbol, name: string, p: nat)
      requires p < |packages|
      modifies this
      ensures Now() == WithTable(old(Now()), p, old(packages)[p].table[name := Copied(symbol)])
    {
      ghost var before, table := Now(), packages[p].table;
      SetTable(p, packages[p].table - {name});
      TableTwice(before, p, table - {name}, (table - {name})[name := FRESH]);
      var copy := Intern(p, name);
      TableTwice(before, p, (table - {name})[name := FRESH], table[name := Copied(symbol)]);
      copy := copy.(content := symbol.content, readonly := symbol.readonly, modified := true);
      assert (table - {name})[name := FRESH][name := copy] == table[name := Copied(symbol)];
      SetTable(p, packages[p].table[name := copy]);
    }

    /** The first half of `mhtml_let`: the old variables are saved, the new ones bound. */
    method SaveAndBind(vars: seq<Binding>, pack: nat) returns (saved: Table)
      requires pack < |packages| && DistinctNames(vars)
      modifies this
      ensures Now() == WithTable(old(Now()), pack, Bound(old(packages)[pack].table, vars, |vars|))
      ensures saved == Saved(old(packages)[pack].table, vars, |vars|)
    {
      saved := map[];
      ghost var table, before := packages[pack].table, Now();
      TableTwice(before, pack, table, table);
      var i := 0;
      while i < |vars|
        invariant 0 <= i <= |vars| && saved == Saved(table, vars, i) && pack < |packages|
        invariant Now() == WithTable(before, pack, Bound(table, vars, i))
      {
        OthersAreNotBound(table, vars, i, vars[i].name);
        var sym := SaveAndBindOne(vars[i], pack, before, Bound(table, vars, i));
        saved := saved[vars[i].name := Copied(sym)];
        i := i + 1;
      }
    }

    method SaveAndBindOne(from: Binding, pack: nat, ghost before: State, ghost table: Table) returns (sym: Symbol)
      requires pack < |before.packages| && Now() == WithTable(before, pack, table)
      modifies this
      ensures sym == Value(table, from.name)
      ensures Now() == WithTable(before, pack, table[from.name := Copied(from.symbol)])
    {
      TableTwice(before, pack, table, table[from.name := Value(table, from.name)]);
      sym := Intern(pack, from.name);
      TableTwice(before, pack, table[from.name := sym], table[from.name := Copied(from.symbol)]);
      assert table[from.name := sym][from.name := Copied(from.symbol)] == table[from.name := Copied(from.symbol)];
      CopySymbol(from.symbol, from.name, pack);
    }

    /** `symbol_copy_package`, from the saved variables, in any order. */
    method CopyPackage(saved: Table, p: nat)
      requires p < |packages|
      modifies this
      ensures Now() == WithTable(old(Now()), p, old(packages)[p].table + Copies(saved, saved.Keys))
    {
      hide WithTable, Copies;
      ghost var before, table := Now(), packages[p].table;
      TableTwice(before, p, table, table);
      TablesAre(before, p);
      var left, done := saved.Keys, {};
      CopyNone(table, saved);
      while left != {}
        invariant saved.Keys == left + done && left !! done && p < |before.packages| == |packages|
        invariant Now() == WithTable(before, p, table + Copies(saved, done))
        decreases |left|
      {
        var name :| name in left;
        ghost var more := done + {name};
        TableTwice(before, p, table + Copies(saved, done), table + Copies(saved, more));
        CopyMore(table, saved, done, name);
        CopySymbol(saved[name], name, p);
        left, done := left - {name}, done + {name};
      }
      assert done == saved.Keys;
    }

    method Run(p: Program) returns (out: Outcome)
      requires Valid(Now()) && Proper(p)
      modifies this
      ensures (Now(), out) == Exec(p, old(Now()))
      decreases p, 0
    {
      out := Normal;
      match p
      case Skip =>
      case Then(first, rest) =>
        out := Run(first);
        if out.Normal? {
          out := Run(rest);
        }
      case Assign(pack, name, value) =>
        var k := current.value;
        if pack.Some? {
          k := GetPackage(pack);
        }
        SetValue(k, name, value);
      case Let(vars, body) => out := MhtmlLet(vars, body);
      case InPackage(name, inner) =>
        var packname := Some(name);
        if name == "" {
          packname := Some(DEFAULT_PACKAGE_NAME);
        }
        if packname == Some("LOCAL") {
          packname := None;
        }
        out := RunWithin(packname, inner);
      case WithLocal(inner) => out := RunWithin(None, inner);
      case ReturnPage => out := Jump(handler);
    }

    method SetValue(k: nat, name: string, value: string)
      requires k < |packages|
      modifies this
      ensures Now() == WithTable(old(Now()), k, Assigned(old(packages)[k].table, name, value))
    {
      ghost var before, table := Now(), packages[k].table;
      var symbol := Intern(k, name);
      if !symbol.readonly {
        TableTwice(before, k, table[name := symbol], Assigned(table, name, value));
        if !symbol.content.Strings? {
          symbol := FRESH;
        }
        var values := symbol.content.values;
        ArrayVars.StoredInFirst(values, value);
        if values == [] {
          values := values + [""];
          assert values[0 := value] == [value];
        }
        symbol := symbol.(content := Strings(values[0 := value]), modified := true);
        assert packages[k].table[name := symbol] == table[name := symbol];
        SetTable(k, packages[k].table[name := symbol]);
      }
    }

    /** `mhtml_let`. */
    method MhtmlLet(vars: seq<Binding>, body: Program) returns (out: Outcome)
      requires Valid(Now()) && DistinctNames(vars) && Proper(body)
      modifies this
      ensures (Now(), out) == Exec(Let(vars, body), old(Now()))
      decreases body, 1
    {
      hide Bound, Saved, WithTable, Left, Proper;
      ghost var s := Now();
      var pack := current.value;
      var packname := packages[pack].name;
      var environ := handler;
      var saved := EnterLet(vars);
      var mine := handler;
      out := Run(body);
      LetIs(vars, body, s);
      SavedAreCopies(s.packages[pack].table, vars, |vars|);
      if out.Jump? && out.target != mine {
        return;
      }
      LeaveLet(s, saved, environ, pack, packname);
      if out.Jump? {
        out := Jump(handler);
      }
    }

    /** The beginning of `mhtml_let`: variables are saved and bound, and a jump comes back here. */
    method EnterLet(vars: seq<Binding>) returns (saved: Table)
      requires Valid(Now()) && DistinctNames(vars)
      modifies this
      ensures Valid(Now())
      ensures Now() == Entered(vars, old(Now()))
      ensures saved == Saved(old(packages)[old(current).value].table, vars, |vars|)
    {
      hide Bound, Saved;
      saved := SaveAndBind(vars, current.value);
      frames := frames + 1;
      handler := frames;
    }

    /** The end of `mhtml_let`, entered in state `s`. */
    method LeaveLet(ghost s: State, saved: Table, environ: nat, pack: nat, packname: Option<string>)
      requires Valid(s) && Valid(Now()) && current == s.current && environ == s.handler <= frames
      requires Some(pack) == current && packname == s.packages[pack].name && saved == Copies(saved, saved.Keys)
      modifies this
      ensures Now() == Left(s, saved, old(Now()))
    {
      hide Copies, Lookup, AllCarats, WithTable;
      handler := environ;
      var p := pack;
      if packname.Some? {
        p := GetPackage(packname);
      }
      CopyPackage(saved, p);
    }

    /** `in-package` and `with-local-package`. */
    method RunWithin(packname: Option<string>, inner: Program) returns (out: Outcome)
      requires Valid(Now()) && Proper(inner)
      modifies this
      ensures (Now(), out) == Within(packname, inner, old(Now()))
      decreases inner, 1
    {
      hide Get, Push, Pop, Armed, Within, Proper;
      ghost var s := Now();
      var environ := handler;
      EnterPackage(packname);
      var mine := handler;
      ghost var s2 := Now();
      out := Run(inner);
      WithinIs(packname, inner, s);
      if out.Jump? && out.target != mine {
        return;
      }
      PopPackage();
      handler := environ;
      if out.Jump? {
        out := Jump(handler);
      }
    }

    /** The beginning of both: another package is current, and a jump comes back here. */
    method EnterPackage(packname: Option<string>)
      requires Valid(Now())
      modifies this
      ensures var (s1, k) := Get(old(Now()), packname); Now() == Armed(Push(s1, k))
      ensures Valid(Now())
    {
      hide Lookup;
      var k := GetPackage(packname);
      PushPackage(k);
      frames := frames + 1;
      handler := frames;
    }
  }

  lemma LetIs(vars: seq<Binding>, body: Program, s: State)
    requires Valid(s)
    ensures var s2 := Entered(vars, s);
            var (s3, out) := Exec(body, s2);
            Valid(s3) && s3.current == s.current && s.handler <= s3.frames &&
            (out.Jump? ==> out.target == s2.handler) &&
            var s6 := Left(s, Saved(s.packages[s.current.value].table, vars, |vars|), s3);
            Exec(Let(vars, body), s) == (s6, if out.Jump? then Jump(s6.handler) else Normal)
  {
    hide Bound, Saved, Left;
    var s2 := Entered(vars, s);
    assert Balanced(s2, Exec(body, s2).0);
  }

  lemma WithinIs(name: Option<string>, inner: Program, s: State)
    requires Valid(s)
    ensures var (s1, k) := Get(s, name);
            var s2 := Armed(Push(s1, k));
            Valid(s2) &&
            var (s3, out) := Exec(inner, s2);
            var s4 := Pop(s3).(handler := s.handler);
            (out.Jump? ==> out.target == s2.handler) &&
            Within(name, inner, s) == (s4, if out.Jump? then Jump(s4.handler) else Normal)
  {
    hide Get;
  }

  lemma TableTwice(s: State, p: nat, first: Table, second: Table)
    requires p < |s.packages|
    ensures WithTable(WithTable(s, p, first), p, second) == WithTable(s, p, second)
    ensures WithTable(s, p, s.packages[p].table) == s
  {
    assert s.packages[p := s.packages[p]] == s.packages;
    assert WithTable(WithTable(s, p, first), p, second).packages == WithTable(s, p, second).packages;
  }

  function Copies(saved: Table, names: set<string>): Table
  {
    map name | name in saved && name in names :: Copied(saved[name])
  }

  lemma TablesAre(s: State, p: nat)
    requires p < |s.packages|
    ensures forall table :: WithTable(s, p, table).packages[p].table == table &&
                            |WithTable(s, p, table).packages| == |s.packages|
  {
  }

  lemma CopyNone(table: Table, saved: Table)
    ensures table + Copies(saved, {}) == table
  {
  }

  lemma CopyMore(table: Table, saved: Table, done: set<string>, name: string)
    requires name in saved
    ensures (table + Copies(saved, done))[name := Copied(saved[name])] == table + Copies(saved, done + {name})
  {
  }

  lemma SavedAreCopies(table: Table, vars: seq<Binding>, n: nat)
    requires n <= |vars|
    ensures var saved := Saved(table, vars, n); saved == Copies(saved, saved.Keys)
  {
    SavedIs(table, vars, n);
  }
}

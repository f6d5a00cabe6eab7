/** Where variables are set, and to what (libmhtml/forms.c, libmhtml/symbols.c, libmhtml/packfuncs.c). */
module Assignments {
  import opened Options
  import opened Bindings

  /** `v` is what setting a variable that was `was` to `value` makes of it: its first value is new, all others
      stay. What is read-only stays as it is, and what was no list of strings becomes one. */
  predicate IsSet(was: Symbol, v: Symbol, value: string) {
    if was.readonly then v == was
    else
      && !v.readonly && v.modified && v.content.Strings? && v.content.values != [] && v.content.values[0] == value
      && v.content.values[1..] ==
         if was.content.Strings? && was.content.values != [] then was.content.values[1..] else []
  }

  /** Setting a variable sets that variable, and no other. */
  lemma AssignedSets(table: Table, name: string, value: string, other: string)
    ensures IsSet(Value(table, name), Value(Assigned(table, name, value), name), value)
    ensures other != name ==> Value(Assigned(table, name, value), other) == Value(table, other)
    ensures other in Assigned(table, name, value) <==> other == name || other in table
  {
  }

  /** All packages but the `k`-th have the variables they had. */
  predicate OthersKept(s: State, s': State, k: nat) {
    && |s.packages| <= |s'.packages|
    && forall j :: 0 <= j < |s.packages| && j != k ==> s'.packages[j] == s.packages[j]
  }

  /** In the `k`-th package of `s'` the variable is set, and the others are what they were, if there were any. */
  ghost predicate SetIn(s: State, s': State, k: nat, name: string, value: string) {
    && k < |s'.packages|
    && var was := if k < |s.packages| then s.packages[k].table else map[];
    && IsSet(Value(was, name), Value(s'.packages[k].table, name), value)
    && (forall other :: other != name ==> Value(s'.packages[k].table, other) == Value(was, other))
    && OthersKept(s, s', k)
  }

  /** Where a package name leads: to a package that is there, or to a new one. */
  function Where(s: State, pack: string): nat {
    match Lookup(s, pack) case Some(k) => k case None => |s.packages|
  }

  lemma TableIsSet(s: State, k: nat, name: string, value: string)
    requires k < |s.packages|
    ensures var s' := WithTable(s, k, Assigned(s.packages[k].table, name, value));
            SetIn(s, s', k, name, value) && |s'.packages| == |s.packages|
  {
    var was := s.packages[k].table;
    forall other ensures other != name ==> Value(Assigned(was, name, value), other) == Value(was, other) {
      AssignedSets(was, name, value, other);
    }
    AssignedSets(was, name, value, name);
  }

  /** Setting a variable of the current package. */
  lemma AssignSetsCurrent(s: State, name: string, value: string)
    requires Valid(s)
    ensures SetIn(s, Exec(Assign(None, name, value), s).0, s.current.value, name, value)
    ensures |Exec(Assign(None, name, value), s).0.packages| == |s.packages|
  {
    hide Assigned, IsSet;
    TableIsSet(s, s.current.value, name, value);
  }

  /** Setting a variable of the package that a name leads to; one that is not there yet is made. */
  lemma AssignSetsNamed(s: State, pack: string, name: string, value: string)
    requires Valid(s)
    ensures SetIn(s, Exec(Assign(Some(pack), name, value), s).0, Where(s, pack), name, value)
  {
    hide Assigned, IsSet, Lookup;
    var (s1, k) := Get(s, Some(pack));
    TableIsSet(s1, k, name, value);
  }

  /** A later assignment wins. */
  lemma LastAssignmentWins(s: State, name: string, first: string, last: string)
    requires Valid(s) && !Value(s.packages[s.current.value].table, name).readonly
    ensures var p := Then(Assign(None, name, first), Assign(None, name, last));
            var v := Value(Exec(p, s).0.packages[s.current.value].table, name);
            v.content.Strings? && v.content.values != [] && v.content.values[0] == last
  {
    hide Assigned;
    AssignSetsCurrent(s, name, first);
    AssignSetsCurrent(Exec(Assign(None, name, first), s).0, name, last);
  }

  /** What comes after `return` in a page is not run. */
  lemma NothingAfterReturn(s: State, p: Program)
    requires Valid(s)
    ensures Exec(Then(ReturnPage, p), s) == Exec(ReturnPage, s) && Exec(ReturnPage, s).0 == s
  {
  }

  /** `v` is `was`, marked as modified. */
  predicate IsCopy(was: Symbol, v: Symbol) {
    v.content == was.content && v.readonly == was.readonly && v.modified
  }

  /** In the body of a let every variable is a copy of what it is bound to, and after it, where the package is found
      again, a copy of what it was before; a variable that was not there has no values. */
  lemma LetCopies(vars: seq<Binding>, body: Program, s: State, j: nat)
    requires Valid(s) && DistinctNames(vars) && SelfNamed(s) && j < |vars|
    ensures var pack, name := s.current.value, vars[j].name;
            var v := Value(Exec(Let(vars, body), s).0.packages[pack].table, name);
            && IsCopy(vars[j].symbol, Value(Entered(vars, s).packages[pack].table, name))
            && (name in s.packages[pack].table ==> IsCopy(s.packages[pack].table[name], v))
            && (name !in s.packages[pack].table ==> v.content == Strings([]) && !v.readonly)
  {
    hide Exec, Entered, SelfNamed;
    EnteredIsBound(vars, s);
    LetRestores(vars, body, s);
  }

  // ---------------------------------------------------------------- in another package

  lemma WithinSets(s: State, pack: Option<string>, name: string, value: string)
    requires Valid(s)
    ensures var k := if pack.Some? then Where(s, pack.value) else |s.packages|;
            SetIn(s, Within(pack, Assign(None, name, value), s).0, k, name, value)
  {
    hide Assigned, IsSet, Lookup, Exec;
    var p := Assign(None, name, value);
    WithinIs(pack, p, s);
    var (s1, k) := Get(s, pack);
    var s2 := Armed(Push(s1, k));
    AssignSetsCurrent(s2, name, value);
    PopKeepsPackages(Exec(p, s2).0);
    assert s2.packages == s1.packages;
  }

  /** `in-package` sets the variables of the package it names: of the default package without a name, of one of
      its own for `local`, which no other package has to do with. */
  lemma InPackageSets(s: State, pack: string, name: string, value: string)
    requires Valid(s)
    ensures var k := if pack == "" then Where(s, "DEFAULT")
                     else if pack == "LOCAL" then |s.packages|
                     else Where(s, pack);
            SetIn(s, Exec(InPackage(pack, Assign(None, name, value)), s).0, k, name, value)
  {
    hide Assigned, IsSet, Lookup, Within, Exec, SetIn;
    InPackageIs(pack, Assign(None, name, value), s);
    WithinSets(s, PackageOf(pack), name, value);
  }

  /** `with-local-package` leaves the variables of all packages alone. */
  lemma LocalSetsNothingElse(s: State, name: string, value: string)
    requires Valid(s)
    ensures OthersKept(s, Exec(WithLocal(Assign(None, name, value)), s).0, |s.packages|)
  {
    hide Assigned, IsSet, Lookup, Within;
    WithinSets(s, None, name, value);
  }

  // ---------------------------------------------------------------- carats

  /** The packages made current one after the other. */
  function Pushed(s: State, ps: seq<nat>): State
    decreases |ps|
  {
    if ps == [] then s else Push(Pushed(s, ps[..|ps| - 1]), ps[|ps| - 1])
  }

  lemma {:induction false} PushedStack(s: State, ps: seq<nat>)
    ensures var t := Pushed(s, ps);
            |t.stack| == |s.stack| + |ps| && t.stack[..|s.stack|] == s.stack
            && (ps != [] ==> t.stack[|s.stack|] == s.current)
    decreases |ps|
  {
    if ps != [] { PushedStack(s, ps[..|ps| - 1]); }
  }

  /** As many carats as packages were made current lead back to the one that was current before. */
  lemma CaratsCountBack(s: State, ps: seq<nat>, carats: string)
    requires ps != [] && |carats| == |ps| && AllCarats(carats)
    ensures Lookup(Pushed(s, ps), carats) == s.current
  {
    PushedStack(s, ps);
  }
}

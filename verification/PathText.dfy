/** What removing `./` and `../` makes of a path, in terms of the path itself (libmhtml/parser.c). */
module PathText {
  import opened Slices
  import opened Paths

  lemma FirstComponent(a: string) returns (c: string, rest: string)
    requires Rooted(a)
    ensures '/' !in c && (rest == "" || Rooted(rest)) && a == "/" + c + rest && |rest| < |a|
  {
    var j := Slash(a, 1);
    c, rest := a[1..j], a[j..];
  }

  lemma StaysRooted(a: string, b: string)
    requires Rooted(a)
    ensures Rooted(a + b)
  {
  }

  /** The components of two paths in a row. */
  lemma {:induction false} ComponentsJoin(a: string, b: string)
    requires Rooted(a) && Rooted(b)
    ensures Components(a + b) == Components(a) + Components(b)
    decreases |a|
  {
    var c, rest := FirstComponent(a);
    hide Components;
    ComponentsCons(c, rest);
    Regroup("/" + c, rest, b);
    if rest == "" {
      assert rest + b == b;
      ComponentsCons(c, b);
    } else {
      StaysRooted(rest, b);
      ComponentsCons(c, rest + b);
      ComponentsJoin(rest, b);
      Regroup([c], Components(rest), Components(b));
    }
  }

  /** The stack after components that more come after. */
  function Walked(stack: seq<string>, cs: seq<string>): seq<string>
    decreases |cs|
  {
    if cs == [] then stack
    else Walked(if cs[0] == "." then stack else if cs[0] == ".." then Pop(stack) else stack + [cs[0]], cs[1..])
  }

  lemma {:induction false} ResolveParts(stack: seq<string>, cs: seq<string>, ds: seq<string>)
    requires ds != []
    ensures Resolve(stack, cs + ds) == Resolve(Walked(stack, cs), ds)
    decreases |cs|
  {
    if cs == [] {
      assert cs + ds == ds;
    } else {
      assert (cs + ds)[1..] == cs[1..] + ds;
      ResolveParts(if cs[0] == "." then stack else if cs[0] == ".." then Pop(stack) else stack + [cs[0]], cs[1..], ds);
    }
  }

  /** The canonical form of a path that starts with a slash, told from the components. */
  function Resolved(p: string): string
    requires Rooted(p)
  {
    Render(Resolve([], Components(p)))
  }

  lemma ResolvedJoin(a: string, c: string, rest: string)
    requires (a == "" || Rooted(a)) && '/' !in c && Rooted(rest)
    ensures var stack := if a == "" then [] else Walked([], Components(a));
            && Rooted(a + ("/" + c + rest))
            && Resolved(a + ("/" + c + rest)) == Render(Resolve(stack, [c] + Components(rest)))
  {
    hide Render, Resolve, Walked;
    var tail := "/" + c + rest;
    ComponentsCons(c, rest);
    if a == "" {
      assert a + tail == tail;
    } else {
      ComponentsJoin(a, tail);
      ResolveParts([], Components(a), [c] + Components(rest));
    }
  }

  lemma ResolvedJoinRest(a: string, rest: string)
    requires (a == "" || Rooted(a)) && Rooted(rest)
    ensures var stack := if a == "" then [] else Walked([], Components(a));
            Rooted(a + rest) && Resolved(a + rest) == Render(Resolve(stack, Components(rest)))
  {
    hide Render, Resolve, Walked;
    if a == "" {
      assert a + rest == rest;
    } else {
      ComponentsJoin(a, rest);
      ResolveParts([], Components(a), Components(rest));
    }
  }

  /** `/./` in a path is a slash. */
  lemma DotIsHere(a: string, rest: string)
    requires (a == "" || Rooted(a)) && Rooted(rest)
    ensures Canonical(a + ("/." + rest)) == Canonical(a + rest)
  {
    hide Canonical, Components;
    assert "/" + "." + rest == "/." + rest;
    ResolvedJoin(a, ".", rest);
    ResolvedJoinRest(a, rest);
    CanonicalOfRooted(a + ("/." + rest));
    CanonicalOfRooted(a + rest);
    assert (["."] + Components(rest))[1..] == Components(rest);
  }

  /** A component and `/../` after it cancel. */
  lemma DotDotIsBack(a: string, c: string, rest: string)
    requires (a == "" || Rooted(a)) && Rooted(rest) && '/' !in c && c != "." && c != ".."
    ensures Canonical(a + ("/" + c + ("/.." + rest))) == Canonical(a + rest)
  {
    hide Canonical, Components, Render, Resolve, Walked;
    var up := "/.." + rest;
    assert "/" + ".." + rest == up;
    ComponentsCons("..", rest);
    ResolvedJoin(a, c, up);
    ResolvedJoinRest(a, rest);
    CanonicalOfRooted(a + ("/" + c + up));
    CanonicalOfRooted(a + rest);
    PushThenPop(if a == "" then [] else Walked([], Components(a)), c, Components(rest));
  }

  lemma PushThenPop(stack: seq<string>, c: string, cs: seq<string>)
    requires c != "." && c != ".." && cs != []
    ensures Resolve(stack, [c] + ([".."] + cs)) == Resolve(stack, cs)
  {
    assert ([c] + ([".."] + cs))[1..] == [".."] + cs && ([".."] + cs)[1..] == cs;
    assert Pop(stack + [c]) == stack;
  }

  /** At the root `/../` is a slash. */
  lemma DotDotAtRoot(rest: string)
    requires Rooted(rest)
    ensures Canonical("/.." + rest) == Canonical(rest)
  {
    hide Canonical, Components;
    assert "/" + ".." + rest == "/.." + rest && "" + ("/.." + rest) == "/.." + rest;
    ResolvedJoin("", "..", rest);
    CanonicalOfRooted("/.." + rest);
    CanonicalOfRooted(rest);
    assert ([".."] + Components(rest))[1..] == Components(rest);
  }

  lemma {:induction false} DotFreeComponents(p: string)
    requires Rooted(p) && forall i :: 0 <= i < |p| ==> !DotsAt(p, i)
    ensures NoDots(Components(p), |Components(p)| - 1) && Render(Components(p)) == p
    decreases |p|
  {
    hide Render, DotsAt, Components, IsDots, Rooted;
    DotsAtHead(p);
    var c, rest := FirstComponent(p);
    ComponentsCons(c, rest);
    RenderSplit(Components(p));
    if rest == "" {
      NothingRendered(Components(p)[1..]);
    } else {
      var j := |p| - |rest|;
      assert p[j..] == rest;
      forall i | 0 <= i < |rest| ensures !DotsAt(rest, i) {
        DotsAtSuffix(p, j, i);
      }
      DotFreeComponents(rest);
      HeadAndRest(c, Components(rest));
    }
  }

  lemma HeadAndRest(c: string, cs: seq<string>)
    ensures ([c] + cs)[0] == c && ([c] + cs)[1..] == cs
  {
  }

  lemma DotsAtSuffix(p: string, j: nat, i: nat)
    requires j <= |p|
    ensures DotsAt(p[j..], i) == DotsAt(p, j + i)
  {
  }

  /** A path that starts with a slash stays as it is if and only if there is no `/./` and no `/../` in it. */
  lemma CanonicalStays(p: string)
    requires Rooted(p)
    ensures Canonical(p) == p <==> forall i :: 0 <= i < |p| ==> !DotsAt(p, i)
  {
    hide Render, Resolve, Components, DotsAt, Canonical;
    if forall i :: 0 <= i < |p| ==> !DotsAt(p, i) {
      CanonicalOfRooted(p);
      DotFreeComponents(p);
      ResolveClean([], Components(p));
      assert [] + Components(p) == Components(p);
    } else {
      var i :| 0 <= i < |p| && DotsAt(p, i);
      CanonicalHasNoDots(p, i);
    }
  }

  // ---------------------------------------------------------------- relative paths

  /** The first character of a path is taken for a slash. It stays if there is nothing to remove. */
  lemma RelativeStays(p: string)
    requires p != "" && forall i :: 0 <= i < |p| ==> !DotsAt(Root(p), i)
    ensures Canonical(p) == p
  {
    hide Render, Resolve, Survives, Components, DotsAt;
    var q := Root(p);
    DotFreeComponents(q);
    ResolveClean([], Components(q));
    CleanSurvives([], Components(q));
    assert [] + Components(q) == Components(q) && [p[0]] + q[1..] == p;
  }

  /** Dots right after it remove it, and so does going back over the component it starts. */
  lemma RelativeLoses(c: char, name: string, rest: string)
    requires Rooted(rest) && '/' !in name && name != "." && name != ".."
    ensures Canonical([c] + ("." + rest)) == Canonical(rest)
    ensures Canonical([c] + (".." + rest)) == Canonical(rest)
    ensures Canonical([c] + (name + ("/.." + rest))) == Canonical(rest)
  {
    hide Render, Resolve, Survives, Components;
    FirstIsLost(c, ".", rest);
    FirstIsLost(c, "..", rest);
    FirstIsLostBack(c, name, rest);
  }

  lemma RootOf(c: char, t: string)
    ensures Root([c] + t) == "/" + t
  {
  }

  lemma FirstIsLost(c: char, dots: string, rest: string)
    requires Rooted(rest) && IsDots(dots)
    ensures Canonical([c] + (dots + rest)) == Canonical(rest)
  {
    hide Render, Components;
    RootOf(c, dots + rest);
    Regroup("/", dots, rest);
    ComponentsCons(dots, rest);
    CanonicalOfRooted(rest);
    var cs := Components(rest);
    assert ([dots] + cs)[1..] == cs;
  }

  lemma FirstIsLostBack(c: char, name: string, rest: string)
    requires Rooted(rest) && '/' !in name && name != "." && name != ".."
    ensures Canonical([c] + (name + ("/.." + rest))) == Canonical(rest)
  {
    hide Render, Components;
    var up := "/.." + rest;
    RootOf(c, name + up);
    Regroup("/", name, up);
    assert "/" + ".." + rest == up;
    ComponentsCons("..", rest);
    ComponentsCons(name, up);
    CanonicalOfRooted(rest);
    hide Resolve, Survives;
    PushThenPop([], name, Components(rest));
    NotSurviving(name, Components(rest));
  }

  lemma NotSurviving(name: string, cs: seq<string>)
    requires name != "." && name != ".." && cs != []
    ensures !Survives([], [name] + ([".."] + cs))
  {
    assert ([name] + ([".."] + cs))[1..] == [".."] + cs && [] + [name] == [name];
  }
}

/** Removing `./` and `../` from a path in place (libmhtml/parser.c). */
module Paths {
  import Slices

  // ---------------------------------------------------------------- the component stack

  /** The first slash of `p` at or after `i`, or its length. */
  function Slash(p: string, i: nat): (j: nat)
    requires i <= |p|
    ensures i <= j <= |p| && (j < |p| ==> p[j] == '/') && forall k :: i <= k < j ==> p[k] != '/'
    decreases |p| - i
  {
    if i == |p| || p[i] == '/' then i else Slash(p, i + 1)
  }

  predicate Rooted(p: string) {
    p != "" && p[0] == '/'
  }

  /** What lies between the slashes of a path that starts with one; never empty. */
  function Components(p: string): (cs: seq<string>)
    requires Rooted(p)
    ensures cs != [] && NoSlashes(cs)
    decreases |p|
  {
    var j := Slash(p, 1);
    if j == |p| then [p[1..]] else [p[1..j]] + Components(p[j..])
  }

  function Render(cs: seq<string>): (p: string)
    ensures cs != [] ==> Rooted(p)
    decreases |cs|
  {
    if cs == [] then "" else Render(cs[..|cs| - 1]) + "/" + cs[|cs| - 1]
  }

  function Pop(stack: seq<string>): seq<string> {
    if stack == [] then [] else stack[..|stack| - 1]
  }

  /** `.` is dropped, `..` pops the stack or does nothing at the root, and the last component,
      which no slash follows, is kept as it is. */
  function Resolve(stack: seq<string>, cs: seq<string>): (r: seq<string>)
    requires cs != []
    ensures r != []
    decreases |cs|
  {
    if |cs| == 1 then stack + cs
    else if cs[0] == "." then Resolve(stack, cs[1..])
    else if cs[0] == ".." then Resolve(Pop(stack), cs[1..])
    else Resolve(stack + [cs[0]], cs[1..])
  }

  /** The first character of the path is never removed on the way. */
  predicate Survives(stack: seq<string>, cs: seq<string>)
    requires cs != []
    decreases |cs|
  {
    if |cs| == 1 then true
    else if cs[0] == "." then stack != [] && Survives(stack, cs[1..])
    else if cs[0] == ".." then |stack| > 1 && Survives(Pop(stack), cs[1..])
    else Survives(stack + [cs[0]], cs[1..])
  }

  /** The path as if it started with a slash: the loop never looks at its first character. */
  function Root(p: string): (r: string)
    requires p != ""
    ensures Rooted(r) && |r| == |p|
  {
    "/" + p[1..]
  }

  function Canonical(p: string): string {
    if p == "" then ""
    else
      var cs := Components(Root(p));
      WithFirst(Render(Resolve([], cs)), Survives([], cs), p[0])
  }

  /** `s`, but with the first character `c` if that is still there. */
  function WithFirst(s: string, kept: bool, c: char): (t: string)
    requires s != ""
    ensures |t| == |s|
  {
    if kept then [c] + s[1..] else s
  }

  /** For a path that starts with a slash, that is just the resolved path. */
  lemma CanonicalOfRooted(p: string)
    requires Rooted(p)
    ensures Canonical(p) == Render(Resolve([], Components(p)))
  {
    assert Root(p) == p;
    var q := Render(Resolve([], Components(p)));
    assert "/" + q[1..] == q;
  }

  // ---------------------------------------------------------------- properties

  predicate NoSlashes(cs: seq<string>) {
    forall k :: 0 <= k < |cs| ==> '/' !in cs[k]
  }

  predicate IsDots(c: string) {
    c == "." || c == ".."
  }

  /** No component among the first `n` is `.` or `..`. */
  predicate NoDots(cs: seq<string>, n: int) {
    forall k :: 0 <= k < n && k < |cs| ==> !IsDots(cs[k])
  }

  lemma {:induction false} ResolveIsClean(stack: seq<string>, cs: seq<string>)
    requires cs != [] && NoSlashes(stack) && NoSlashes(cs) && NoDots(stack, |stack|)
    ensures var r := Resolve(stack, cs); r != [] && NoSlashes(r) && NoDots(r, |r| - 1)
    decreases |cs|
  {
    if |cs| > 1 {
      ResolveIsClean(if cs[0] == "." then stack else if cs[0] == ".." then Pop(stack) else stack + [cs[0]], cs[1..]);
    }
  }

  lemma {:induction false} ResolveClean(stack: seq<string>, cs: seq<string>)
    requires cs != [] && NoDots(cs, |cs| - 1)
    ensures Resolve(stack, cs) == stack + cs
    decreases |cs|
  {
    if |cs| > 1 {
      ResolveClean(stack + [cs[0]], cs[1..]);
      assert stack + [cs[0]] + cs[1..] == stack + cs;
    }
  }

  lemma RenderPush(cs: seq<string>, c: string)
    ensures Render(cs + [c]) == Render(cs) + "/" + c == Render(cs) + ("/" + c)
  {
    assert (cs + [c])[..|cs|] == cs;
  }

  lemma {:induction false} RenderConcat(cs: seq<string>, ds: seq<string>)
    ensures Render(cs + ds) == Render(cs) + Render(ds)
    decreases |ds|
  {
    if ds == [] {
      assert cs + ds == cs;
    } else {
      var init, c := ds[..|ds| - 1], ds[|ds| - 1];
      RenderConcat(cs, init);
      hide Render;
      RenderPush(cs + init, c);
      RenderPush(init, c);
      assert init + [c] == ds && cs + init + [c] == cs + ds;
      Slices.Regroup(Render(cs), Render(init), "/" + c);
    }
  }

  lemma ComponentsCons(c: string, rest: string)
    requires '/' !in c && (rest == "" || Rooted(rest))
    ensures Components("/" + c + rest) == if rest == "" then [c] else [c] + Components(rest)
  {
    var p := "/" + c + rest;
    assert forall k :: 1 <= k < 1 + |c| ==> p[k] == c[k - 1];
    SlashAfter(p, 1, 1 + |c|);
    assert p[1..1 + |c|] == c && p[1 + |c|..] == rest;
    assert rest == "" ==> p[1..] == c;
  }

  lemma {:induction false} SlashAfter(p: string, i: nat, j: nat)
    requires i <= j <= |p| && (forall k :: i <= k < j ==> p[k] != '/') && (j < |p| ==> p[j] == '/')
    ensures Slash(p, i) == j
    decreases j - i
  {
    if i < j { SlashAfter(p, i + 1, j); }
  }

  lemma {:induction false} ComponentsOfRender(cs: seq<string>)
    requires cs != [] && NoSlashes(cs)
    ensures Components(Render(cs)) == cs
    decreases |cs|
  {
    var head, tail := cs[0], cs[1..];
    RenderSplit(cs);
    ComponentsCons(head, Render(tail));
    if tail != [] { ComponentsOfRender(tail); }
  }

  lemma {:induction false} CleanSurvives(stack: seq<string>, cs: seq<string>)
    requires cs != [] && NoDots(cs, |cs| - 1)
    ensures Survives(stack, cs)
    decreases |cs|
  {
    if |cs| > 1 {
      CleanSurvives(stack + [cs[0]], cs[1..]);
    }
  }

  /** Resolving a resolved path changes nothing. */
  lemma CanonicalIsIdempotent(p: string)
    ensures Canonical(Canonical(p)) == Canonical(p)
  {
    hide Render, Resolve, Survives, Components;
    if p != "" {
      var cs := Components(Root(p));
      var r := Resolve([], cs);
      ResolveIsClean([], cs);
      ComponentsOfRender(r);
      ResolveClean([], r);
      CleanSurvives([], r);
      assert [] + r == r;
      assert Root(Canonical(p)) == Render(r);
    }
  }

  /** `./` or `../` could be removed at `i`. */
  predicate DotsAt(p: string, i: nat) {
    || (i + 2 < |p| && p[i] == '/' && p[i + 1] == '.' && p[i + 2] == '/')
    || (i + 3 < |p| && p[i] == '/' && p[i + 1] == '.' && p[i + 2] == '.' && p[i + 3] == '/')
  }

  lemma DotsAtHead(p: string)
    requires Rooted(p)
    ensures DotsAt(p, 0) <==> |Components(p)| > 1 && IsDots(Components(p)[0])
  {
    var j := Slash(p, 1);
    if DotsAt(p, 0) {
      SlashAfter(p, 1, if p[2] == '/' then 2 else 3);
      assert p[1..j] == if j == 2 then "." else "..";
    }
  }

  lemma RenderSplit(cs: seq<string>)
    requires cs != []
    ensures Render(cs) == "/" + cs[0] + Render(cs[1..])
  {
    RenderConcat([cs[0]], cs[1..]);
    RenderPush([], cs[0]);
    assert cs == [cs[0]] + cs[1..] && [] + [cs[0]] == [cs[0]];
  }

  lemma {:induction false} NoDotsInRender(cs: seq<string>, i: nat)
    requires cs != [] && NoSlashes(cs) && NoDots(cs, |cs| - 1)
    ensures !DotsAt(Render(cs), i)
    decreases |cs|
  {
    hide Render, Components;
    var p, head, tail := Render(cs), cs[0], cs[1..];
    RenderSplit(cs);
    if i == 0 {
      ComponentsOfRender(cs);
      DotsAtHead(p);
    } else if i <= |head| {
      assert i < |p| ==> p[i] == head[i - 1] && head[i - 1] in cs[0];
    } else if tail != [] {
      NoDotsInRender(tail, i - 1 - |head|);
      assert p[1 + |head|..] == Render(tail);
    } else {
      NothingRendered(tail);
    }
  }

  lemma NothingRendered(cs: seq<string>)
    requires cs == []
    ensures Render(cs) == ""
  {
  }

  /** No `/./` and no `/../` is left in the result. */
  lemma CanonicalHasNoDots(p: string, i: nat)
    ensures !DotsAt(Canonical(p), i)
  {
    hide Render, Resolve, Survives, Components;
    if p != "" {
      var cs := Components(Root(p));
      var q := Render(Resolve([], cs));
      ResolveIsClean([], cs);
      NoDotsInRender(Resolve([], cs), i);
      assert forall k :: 0 < k < |q| ==> Canonical(p)[k] == q[k];
    }
  }

  // ---------------------------------------------------------------- the loop over the work buffer

  /** `w` holds the C string `s`. */
  ghost predicate Holds(w: array<char>, s: string)
    reads w
  {
    |s| < w.Length && w[..|s|] == s && w[|s|] == '\0' && forall k :: 0 <= k < |s| ==> s[k] != '\0'
  }

  /** `memmove (w + dst, w + src, 1 + strlen (w + src))`. */
  method MoveDown(w: array<char>, dst: nat, src: nat, ghost s: string)
    requires Holds(w, s) && dst < src <= |s|
    modifies w
    ensures Holds(w, s[..dst] + s[src..])
  {
    var k := 0;
    while w[src + k] != '\0'
      invariant 0 <= k && src + k <= |s|
      invariant forall m :: 0 <= m < dst ==> w[m] == s[m]
      invariant forall m :: dst <= m < dst + k ==> w[m] == s[m - dst + src]
      invariant (forall m :: src + k <= m < |s| ==> w[m] == s[m]) && w[|s|] == '\0'
      decreases |s| - k
    {
      w[dst + k] := w[src + k];
      k := k + 1;
    }
    assert src + k == |s|;
    w[dst + k] := '\0';
    assert w[..dst + k] == s[..dst] + s[src..];
  }

  /** Where the last component of the stack starts in the path, or 0. */
  function LastStart(stack: seq<string>): nat {
    if stack == [] then 0 else |Render(Pop(stack))|
  }

  /** The slash before the last component, searched backwards from just before `end`. */
  method SlashBefore(w: array<char>, end: nat, ghost stack: seq<string>) returns (i: nat)
    requires NoSlashes(stack) && end == |Render(stack)| < w.Length
    requires forall k :: 0 < k < end ==> w[k] == Render(stack)[k]
    ensures i == LastStart(stack)
  {
    var lastSlash: int := end - 1;
    while lastSlash > 0
      invariant if stack == [] then lastSlash == -1 else LastStart(stack) <= lastSlash < end
    {
      if w[lastSlash] == '/' {
        break;
      }
      lastSlash := lastSlash - 1;
    }
    if lastSlash < 0 { lastSlash := 0; }
    ghost var path := Render(stack);
    assert stack != [] ==> forall k :: LastStart(stack) < k < end ==>
           path[k] == stack[|stack| - 1][k - LastStart(stack) - 1];
    i := lastSlash;
  }

  /** The path so far: either the scan stands at the slash after a resolved prefix, or it is inside
      the component that follows the prefix and `lastSlash` marks that component's slash. */
  ghost predicate Scanning(s: string, i: nat, lastSlash: nat, stack: seq<string>) {
    var q := |Render(stack)|;
    && NoSlashes(stack) && q <= i <= |s| && q < |s| && s[..q] == Render(stack) && s[q] == '/'
    && if i == q then lastSlash == LastStart(stack)
       else lastSlash == q && !DotsAt(s, q) && forall k :: q < k < i ==> s[k] != '/'
  }

  /** What the path will become. */
  function Goal(s: string, stack: seq<string>): seq<string>
    requires |Render(stack)| < |s| && s[|Render(stack)|] == '/'
  {
    Resolve(stack, Components(s[|Render(stack)|..]))
  }

  predicate SurvivesFrom(s: string, stack: seq<string>)
    requires |Render(stack)| < |s| && s[|Render(stack)|] == '/'
  {
    Survives(stack, Components(s[|Render(stack)|..]))
  }

  lemma ResolvePushes(stack: seq<string>, c: string, cs: seq<string>)
    requires !IsDots(c) && cs != []
    ensures Resolve(stack, [c] + cs) == Resolve(stack + [c], cs)
    ensures Survives(stack, [c] + cs) == Survives(stack + [c], cs)
  {
    assert ([c] + cs)[1..] == cs;
  }

  lemma ResolvePops(stack: seq<string>, cs: seq<string>)
    requires cs != []
    ensures Resolve(stack, [".."] + cs) == Resolve(Pop(stack), cs)
    ensures Survives(stack, [".."] + cs) == (|stack| > 1 && Survives(Pop(stack), cs))
  {
    assert ([".."] + cs)[1..] == cs;
  }

  /** A component that ends in a slash and is not made of dots goes onto the stack. */
  lemma PushComponent(s: string, i: nat, lastSlash: nat, stack: seq<string>)
    requires Scanning(s, i, lastSlash, stack) && |Render(stack)| < i < |s| && s[i] == '/'
    ensures var stack' := stack + [s[|Render(stack)| + 1..i]];
            && Scanning(s, i, lastSlash, stack') && |Render(stack')| == i
            && Goal(s, stack') == Goal(s, stack) && SurvivesFrom(s, stack') == SurvivesFrom(s, stack)
  {
    hide Slash, Components, Resolve, Survives;
    var q := |Render(stack)|;
    var c, rest := s[q + 1..i], s[i..];
    RenderPush(stack, c);
    assert s[..i] == s[..q] + "/" + c && s[q..] == "/" + c + rest;
    ComponentsCons(c, rest);
    assert !IsDots(c);
    ResolvePushes(stack, c, Components(rest));
    assert Pop(stack + [c]) == stack;
  }

  /** `./` is removed in front of the slash the scan stands at. */
  lemma DropDot(s: string, i: nat, lastSlash: nat, stack: seq<string>)
    requires Scanning(s, i, lastSlash, stack) && i == |Render(stack)| && i + 2 < |s|
    requires s[i + 1] == '.' && s[i + 2] == '/'
    ensures var s' := s[..i] + s[i + 2..];
            && Scanning(s', i, lastSlash, stack) && Goal(s', stack) == Goal(s, stack)
            && SurvivesFrom(s, stack) == (i > 0 && SurvivesFrom(s', stack))
  {
    hide Slash, Components;
    var rest := s[i + 2..];
    assert s[i..] == "/" + "." + rest && (s[..i] + rest)[i..] == rest;
    ComponentsCons(".", rest);
    var cs := ["."] + Components(rest);
    assert cs[1..] == Components(rest);
  }

  /** `../` is removed together with the component before it. */
  lemma DropDotDot(s: string, i: nat, lastSlash: nat, stack: seq<string>)
    requires Scanning(s, i, lastSlash, stack) && i == |Render(stack)| && i + 3 < |s|
    requires s[i + 1] == '.' && s[i + 2] == '.' && s[i + 3] == '/'
    ensures var s' := s[..lastSlash] + s[i + 3..];
            && lastSlash == |Render(Pop(stack))| <= i && s'[..lastSlash] == Render(Pop(stack)) && NoSlashes(Pop(stack))
            && Scanning(s', lastSlash, LastStart(Pop(stack)), Pop(stack)) && Goal(s', Pop(stack)) == Goal(s, stack)
            && SurvivesFrom(s, stack) == (lastSlash > 0 && SurvivesFrom(s', Pop(stack)))
  {
    hide Slash, Components, Resolve, Survives;
    var rest := s[i + 3..];
    assert s[i..] == "/" + ".." + rest && (s[..lastSlash] + rest)[lastSlash..] == rest;
    ComponentsCons("..", rest);
    ResolvePops(stack, Components(rest));
    assert s[..lastSlash] == s[..i][..lastSlash];
  }

  /** The scan moves past a slash that nothing can be removed at, or past another character. */
  lemma PassCharacter(s: string, i: nat, lastSlash: nat, stack: seq<string>)
    requires Scanning(s, i, lastSlash, stack) && i < |s|
    requires if i == |Render(stack)| then !DotsAt(s, i) else s[i] != '/'
    ensures Scanning(s, i + 1, if i == |Render(stack)| then i else lastSlash, stack)
  {
  }

  lemma ScanStarts(p: string)
    requires Rooted(p)
    ensures Scanning(p, 0, 0, []) && Goal(p, []) == Resolve([], Components(p))
    ensures SurvivesFrom(p, []) == Survives([], Components(p))
  {
    assert p[0..] == p;
  }

  /** At the end of the path the component without a slash is kept. */
  lemma ScanEnds(s: string, lastSlash: nat, stack: seq<string>)
    requires Scanning(s, |s|, lastSlash, stack)
    ensures s == Render(Goal(s, stack)) && SurvivesFrom(s, stack)
  {
    hide Slash, Components;
    var q := |Render(stack)|;
    var c := s[q + 1..];
    assert s[q..] == "/" + c + "";
    ComponentsCons(c, "");
    RenderPush(stack, c);
  }

  /** The invariant of the loop: `s` is the path so far, as if it started with a slash; `c` was its first
      character, which is there as long as `kept`. */
  ghost predicate OnTheWay(w: array<char>, s: string, i: nat, lastSlash: nat, stack: seq<string>, kept: bool, c: char,
                           goal: seq<string>, survives: bool)
    reads w
  {
    && Scanning(s, i, lastSlash, stack) && Holds(w, WithFirst(s, kept, c))
    && Goal(s, stack) == goal && (kept && SurvivesFrom(s, stack)) == survives
  }

  /** What moving a tail down does to the first character. */
  lemma WithFirstMoved(s: string, kept: bool, c: char, dst: nat, src: nat)
    requires dst < src < |s|
    ensures var t := WithFirst(s, kept, c);
            t[..dst] + t[src..] == WithFirst(s[..dst] + s[src..], kept && dst > 0, c)
  {
    if kept && dst > 0 {
      assert ([c] + s[1..])[..dst] == [c] + s[1..dst];
      assert (s[..dst] + s[src..])[1..] == s[1..dst] + s[src..];
    }
  }

  lemma HoldsAt(w: array<char>, s: string, kept: bool, c: char)
    requires s != "" && Holds(w, WithFirst(s, kept, c))
    ensures |s| < w.Length && w[|s|] == '\0' && w[0] != '\0'
    ensures forall k :: 0 < k < |s| ==> w[k] == s[k] && s[k] != '\0'
  {
    var t := WithFirst(s, kept, c);
    forall k | 0 <= k < |s| ensures w[k] == t[k] && t[k] != '\0' && (0 < k ==> t[k] == s[k]) {
      assert w[..|t|][k] == t[k];
      if kept && 0 < k { assert ([c] + s[1..])[k] == s[1..][k - 1]; }
    }
  }

  /** The scan is past the component before the slash it stands at. */
  method RemoveOneDot(w: array<char>, i: nat, ghost lastSlash: nat, ghost s: string, ghost stack: seq<string>,
                      ghost kept: bool, ghost c: char, ghost goal: seq<string>, ghost survives: bool)
    returns (ghost s': string, ghost kept': bool)
    requires OnTheWay(w, s, i, lastSlash, stack, kept, c, goal, survives) && i == |Render(stack)| && i + 2 < |s|
    requires s[i + 1] == '.' && s[i + 2] == '/'
    modifies w
    ensures OnTheWay(w, s', i, lastSlash, stack, kept', c, goal, survives) && |s'| < |s|
  {
    hide Goal, SurvivesFrom, Scanning, Holds, Render, WithFirst;
    DropDot(s, i, lastSlash, stack);
    WithFirstMoved(s, kept, c, i, i + 2);
    MoveDown(w, i, i + 2, WithFirst(s, kept, c));
    s', kept' := s[..i] + s[i + 2..], kept && i > 0;
  }

  method RemoveTwoDots(w: array<char>, i: nat, lastSlash: nat, ghost s: string, ghost stack: seq<string>,
                       ghost kept: bool, ghost c: char, ghost goal: seq<string>, ghost survives: bool)
    returns (ghost s': string, ghost kept': bool, lastSlash': nat)
    requires OnTheWay(w, s, i, lastSlash, stack, kept, c, goal, survives) && i == |Render(stack)| && i + 3 < |s|
    requires s[i + 1] == '.' && s[i + 2] == '.' && s[i + 3] == '/'
    modifies w
    ensures OnTheWay(w, s', lastSlash, lastSlash', Pop(stack), kept', c, goal, survives) && |s'| < |s|
  {
    hide Goal, SurvivesFrom, Scanning, Holds, Render, WithFirst, LastStart, NoSlashes;
    DropDotDot(s, i, lastSlash, stack);
    WithFirstMoved(s, kept, c, lastSlash, i + 3);
    MoveDown(w, lastSlash, i + 3, WithFirst(s, kept, c));
    s', kept' := s[..lastSlash] + s[i + 3..], kept && lastSlash > 0;
    PrefixHeld(w, s', kept', c, lastSlash, Pop(stack));
    lastSlash' := SlashBefore(w, lastSlash, Pop(stack));
  }

  lemma PrefixHeld(w: array<char>, s: string, kept: bool, c: char, end: nat, stack: seq<string>)
    requires end <= |s| && s != "" && Holds(w, WithFirst(s, kept, c)) && s[..end] == Render(stack)
    ensures end < w.Length && forall k :: 0 < k < end ==> w[k] == Render(stack)[k]
  {
    HoldsAt(w, s, kept, c);
    assert forall k :: 0 < k < end ==> s[k] == s[..end][k];
  }

  /** Before it looks for dots, the scan takes the component it has passed onto the stack. */
  lemma TakeComponent(w: array<char>, s: string, i: nat, lastSlash: nat, stack: seq<string>, kept: bool, c: char,
                      goal: seq<string>, survives: bool) returns (stack': seq<string>)
    requires OnTheWay(w, s, i, lastSlash, stack, kept, c, goal, survives) && i < |s| && (i == 0 || s[i] == '/')
    ensures OnTheWay(w, s, i, lastSlash, stack', kept, c, goal, survives) && i == |Render(stack')|
  {
    hide Goal, SurvivesFrom, Holds, Render, WithFirst, LastStart, NoSlashes;
    if i == |Render(stack)| {
      stack' := stack;
    } else {
      PushComponent(s, i, lastSlash, stack);
      stack' := stack + [s[|Render(stack)| + 1..i]];
    }
  }

  /** The clean-up loop of `mhtml_canonicalize_file_name`, on whatever path the buffer holds. The index
      steps back over every removed piece. */
  method RemoveDots(w: array<char>, ghost p: string)
    requires Holds(w, p)
    modifies w
    ensures Holds(w, Canonical(p))
  {
    hide Goal, SurvivesFrom, Scanning, Holds, Resolve, Components, Render, WithFirst, Survives;
    NothingHeld(w, p);
    if w[0] == '\0' {
      return;
    }
    ghost var c, cs := p[0], Components(Root(p));
    ghost var goal, survives := Resolve([], cs), Survives([], cs);
    ghost var s, stack: seq<string>, kept := Root(p), [], true;
    var i: int, lastSlash: nat := 0, 0;
    StartOnTheWay(w, p);
    while w[i] != '\0'
      invariant 0 <= i <= |s| && s != "" && i < w.Length
      invariant OnTheWay(w, s, i, lastSlash, stack, kept, c, goal, survives)
      decreases |s|, |s| - i
    {
      NotAtEnd(w, s, kept, c, i);
      if i == 0 || w[i] == '/' {
        stack := TakeComponent(w, s, i, lastSlash, stack, kept, c, goal, survives);
        if w[i + 1] == '.' && w[i + 2] == '/' {
          s, kept := RemoveOneDot(w, i, lastSlash, s, stack, kept, c, goal, survives);
          i := i - 1;
        } else if w[i + 1] == '.' && w[i + 2] == '.' && w[i + 3] == '/' {
          var last: int := lastSlash;
          s, kept, lastSlash := RemoveTwoDots(w, i, lastSlash, s, stack, kept, c, goal, survives);
          stack := Pop(stack);
          i := last - 1;
        } else {
          PassHere(w, s, i, lastSlash, stack, kept, c, goal, survives);
          lastSlash := i;
        }
      } else {
        PassInside(w, s, i, lastSlash, stack, kept, c, goal, survives);
      }
      i := i + 1;
      InText(w, s, i, lastSlash, stack, kept, c, goal, survives);
    }
    EndOfWay(w, s, i, lastSlash, stack, kept, c, goal, survives);
  }

  lemma NothingHeld(w: array<char>, p: string)
    requires Holds(w, p)
    ensures w.Length > 0 && (w[0] == '\0' <==> p == "")
  {
    assert p != "" ==> w[..|p|][0] == p[0];
  }

  lemma StartOnTheWay(w: array<char>, p: string)
    requires Holds(w, p) && p != ""
    ensures var cs := Components(Root(p));
            OnTheWay(w, Root(p), 0, 0, [], true, p[0], Resolve([], cs), Survives([], cs))
  {
    hide Goal, SurvivesFrom, Scanning, Components, Resolve, Survives;
    ScanStarts(Root(p));
    assert [p[0]] + Root(p)[1..] == p;
  }

  /** What the characters from `i` on are, when the scan is not over. */
  lemma NotAtEnd(w: array<char>, s: string, kept: bool, c: char, i: nat)
    requires s != "" && i <= |s| && Holds(w, WithFirst(s, kept, c)) && i < w.Length && w[i] != '\0'
    ensures i < |s| && |s| < w.Length && (i > 0 ==> w[i] == s[i])
    ensures forall k :: i < k <= |s| && k <= i + 3 ==> w[k] == if k < |s| then s[k] else '\0'
    ensures forall k :: 0 < k < |s| ==> s[k] != '\0'
  {
    HoldsAt(w, s, kept, c);
  }

  lemma PassHere(w: array<char>, s: string, i: nat, lastSlash: nat, stack: seq<string>, kept: bool, c: char,
                 goal: seq<string>, survives: bool)
    requires OnTheWay(w, s, i, lastSlash, stack, kept, c, goal, survives) && i == |Render(stack)| < |s| && !DotsAt(s, i)
    ensures OnTheWay(w, s, i + 1, i, stack, kept, c, goal, survives)
  {
    hide Goal, SurvivesFrom, Scanning, Holds, Render, WithFirst;
    PassCharacter(s, i, lastSlash, stack);
  }

  lemma PassInside(w: array<char>, s: string, i: nat, lastSlash: nat, stack: seq<string>, kept: bool, c: char,
                   goal: seq<string>, survives: bool)
    requires OnTheWay(w, s, i, lastSlash, stack, kept, c, goal, survives) && i < |s| && s[i] != '/'
    ensures OnTheWay(w, s, i + 1, lastSlash, stack, kept, c, goal, survives)
  {
    hide Goal, SurvivesFrom, Holds, Render, WithFirst;
    PassCharacter(s, i, lastSlash, stack);
  }

  lemma InText(w: array<char>, s: string, i: nat, lastSlash: nat, stack: seq<string>, kept: bool, c: char,
               goal: seq<string>, survives: bool)
    requires OnTheWay(w, s, i, lastSlash, stack, kept, c, goal, survives)
    ensures i <= |s| < w.Length && s != "" && Holds(w, WithFirst(s, kept, c))
  {
  }

  lemma EndOfWay(w: array<char>, s: string, i: nat, lastSlash: nat, stack: seq<string>, kept: bool, c: char,
                 goal: seq<string>, survives: bool)
    requires OnTheWay(w, s, i, lastSlash, stack, kept, c, goal, survives) && w[i] == '\0'
    requires goal != []
    ensures Holds(w, WithFirst(Render(goal), survives, c))
  {
    HoldsAt(w, s, kept, c);
    hide Goal, SurvivesFrom, Render;
    assert i == |s|;
    ScanEnds(s, lastSlash, stack);
  }
}

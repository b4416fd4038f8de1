/**
 Path normalization of the filesystem contract: components are pushed on and popped off a
 stack, and a path must not climb above its scoped root.
 */
module Paths {
  import opened Basics
  import opened Text

  datatype Origin = Posix | Windows | UnknownOrigin

  datatype Normalized = Path(text: string) | OriginInvalid | EscapesRoot

  predicate IsName(component: string) {
    component != "" && component != "." && component != ".."
  }

  // ----- components -----

  function Push(stack: seq<string>, component: string): Option<seq<string>> {
    if component == "" || component == "." then Some(stack)
    else if component == ".." then (if stack == [] then None else Some(stack[..|stack| - 1]))
    else Some(stack + [component])
  }

  /** The stack after the components, starting from `stack`; `None` once the path climbs too high. */
  function Resolve(stack: seq<string>, components: seq<string>): Option<seq<string>> {
    if components == [] then Some(stack)
    else
      var n := |components| - 1;
      var before := Resolve(stack, components[..n]);
      if before.None? then None else Push(before.value, components[n])
  }

  // ----- text -----

  function ReplaceBackslashes(s: string): string {
    if s == [] then [] else [if s[0] == '\\' then '/' else s[0]] + ReplaceBackslashes(s[1..])
  }

  function Separated(s: string, origin: Origin): string {
    if origin == Windows then ReplaceBackslashes(s) else s
  }

  function JoinPath(stack: seq<string>): string {
    if stack == [] then "" else Join(stack, '/')
  }

  function Normalize(s: string, origin: Origin): Normalized {
    if origin == UnknownOrigin then OriginInvalid
    else
      var stack := Resolve([], Split(Separated(s, origin), '/'));
      if stack.None? then EscapesRoot else Path(JoinPath(stack.value))
  }

  /** The loop over components, with its stack. */
  method NormalizeFixturePath(s: string, origin: Origin) returns (r: Normalized)
    ensures r == Normalize(s, origin)
  {
    if origin == UnknownOrigin {
      return OriginInvalid;
    }
    var components := Split(Separated(s, origin), '/');
    var stack: seq<string> := [];
    for i := 0 to |components|
      invariant Resolve([], components[..i]) == Some(stack)
    {
      var component := components[i];
      assert components[..i + 1][..i] == components[..i];
      if component == "" || component == "." {
        continue;
      }
      if component == ".." {
        if stack == [] {
          EscapesForGood([], components, i + 1);
          return EscapesRoot;
        }
        stack := stack[..|stack| - 1];
        continue;
      }
      stack := stack + [component];
    }
    assert components[..|components|] == components;
    r := Path(JoinPath(stack));
  }

  lemma {:induction false} EscapesForGood(stack: seq<string>, components: seq<string>, i: nat)
    requires i <= |components| && Resolve(stack, components[..i]).None?
    ensures Resolve(stack, components).None?
  {
    if i < |components| {
      var front := components[..|components| - 1];
      assert front[..i] == components[..i];
      EscapesForGood(stack, front, i);
    } else {
      assert components[..i] == components;
    }
  }

  // ----- when it succeeds -----

  /** Names minus parent steps. */
  function Depth(components: seq<string>): int {
    if components == [] then 0
    else
      var n := |components| - 1;
      Depth(components[..n]) + if components[n] == ".." then -1 else if IsName(components[n]) then 1 else 0
  }

  ghost predicate NeverClimbsOut(start: nat, components: seq<string>) {
    forall k :: 0 <= k <= |components| ==> start + DepthAfter(components, k) >= 0
  }

  function DepthAfter(components: seq<string>, k: nat): int
    requires k <= |components|
  {
    Depth(components[..k])
  }

  lemma DepthsOfFront(components: seq<string>)
    requires components != []
    ensures var n := |components| - 1;
            && (forall k :: 0 <= k <= n ==> DepthAfter(components[..n], k) == DepthAfter(components, k))
            && DepthAfter(components, n + 1) == Depth(components)
  {
    var n := |components| - 1;
    forall k | 0 <= k <= n ensures DepthAfter(components[..n], k) == DepthAfter(components, k) {
      assert components[..n][..k] == components[..k];
    }
    assert components[..n + 1] == components;
  }

  lemma NeverClimbsSnoc(start: nat, components: seq<string>)
    requires components != []
    ensures NeverClimbsOut(start, components) <==>
            NeverClimbsOut(start, components[..|components| - 1]) && start + Depth(components) >= 0
  {
    var n := |components| - 1;
    var front := components[..n];
    DepthsOfFront(components);
    if NeverClimbsOut(start, components) {
      assert forall k :: 0 <= k <= n ==> start + DepthAfter(components, k) >= 0;
    } else {
      var k :| 0 <= k <= n + 1 && start + DepthAfter(components, k) < 0;
      assert k <= n ==> start + DepthAfter(front, k) < 0;
    }
  }

  /** Success means that no prefix climbs above the start; the stack is then as deep as the path. */
  lemma {:induction false} ResolvesIff(stack: seq<string>, components: seq<string>)
    ensures Resolve(stack, components).Some? <==> NeverClimbsOut(|stack|, components)
    ensures Resolve(stack, components).Some? ==> |Resolve(stack, components).value| == |stack| + Depth(components)
  {
    if components == [] {
      assert components[..0] == [];
    } else {
      var front := components[..|components| - 1];
      ResolvesIff(stack, front);
      NeverClimbsSnoc(|stack|, components);
      assert front[..|front|] == front;
    }
  }

  /** The stack holds names taken from the components. */
  lemma {:induction false} StackHoldsNames(stack: seq<string>, components: seq<string>)
    requires Resolve(stack, components).Some? && forall x :: x in stack ==> IsName(x)
    ensures forall x :: x in Resolve(stack, components).value ==> IsName(x) && (x in stack || x in components)
  {
    if components == [] {
    } else {
      var n := |components| - 1;
      StackHoldsNames(stack, components[..n]);
      assert forall x :: x in components[..n] ==> x in components;
    }
  }

  /** Resolving in two parts is resolving the whole. */
  lemma {:induction false} ResolveConcat(stack: seq<string>, a: seq<string>, b: seq<string>)
    ensures Resolve(stack, a + b) == if Resolve(stack, a).None? then None else Resolve(Resolve(stack, a).value, b)
  {
    if b == [] {
      assert a + b == a;
    } else {
      var n := |b| - 1;
      ResolveConcat(stack, a, b[..n]);
      assert (a + b)[..|a| + n] == a + b[..n];
    }
  }

  /** Names resolve to themselves. */
  lemma {:induction false} NamesResolve(stack: seq<string>, names: seq<string>)
    requires forall x :: x in names ==> IsName(x)
    ensures Resolve(stack, names) == Some(stack + names)
  {
    if names == [] {
      assert stack + names == stack;
    } else {
      var n := |names| - 1;
      NamesResolve(stack, names[..n]);
      assert names[n] in names && stack + names == stack + names[..n] + [names[n]];
    }
  }

  // ----- normal forms -----

  lemma {:induction false} ReplaceMeans(s: string)
    ensures '\\' !in ReplaceBackslashes(s)
    ensures '\\' !in s ==> ReplaceBackslashes(s) == s
  {
    if s == [] {
    } else {
      ReplaceMeans(s[1..]);
    }
  }

  lemma {:induction false} ReplaceConcat(a: string, b: string)
    ensures ReplaceBackslashes(a + b) == ReplaceBackslashes(a) + ReplaceBackslashes(b)
  {
    if a == [] {
      assert a + b == b;
    } else {
      ReplaceConcat(a[1..], b);
      assert (a + b)[1..] == a[1..] + b;
    }
  }

  ghost predicate NormalStack(stack: seq<string>, origin: Origin) {
    && (forall x :: x in stack ==> IsName(x) && '/' !in x)
    && (origin == Windows ==> forall x :: x in stack ==> '\\' !in x)
  }

  /** A successful result is the text of a stack of proper names. */
  lemma NormalForm(s: string, origin: Origin) returns (stack: seq<string>)
    requires Normalize(s, origin).Path?
    ensures Resolve([], Split(Separated(s, origin), '/')) == Some(stack)
    ensures Normalize(s, origin) == Path(JoinPath(stack)) && NormalStack(stack, origin)
  {
    var text := Separated(s, origin);
    var components := Split(text, '/');
    stack := Resolve([], components).value;
    StackHoldsNames([], components);
    PartsLackMark(text, '/');
    ReplaceMeans(s);
  }

  /** The text of a normal stack resolves back to the stack. */
  lemma NormalTextResolves(stack: seq<string>, origin: Origin)
    requires NormalStack(stack, origin)
    ensures Resolve([], Split(Separated(JoinPath(stack), origin), '/')) == Some(stack)
  {
    var text := JoinPath(stack);
    if '\\' in text && origin == Windows {
      JoinChars(stack, '/', '\\');
    }
    ReplaceMeans(text);
    if stack == [] {
      assert Split("", '/') == [""];
      assert [""][..0] == [];
      assert Resolve([], []) == Some([]);
    } else {
      JoinSplits(stack, '/');
      NamesResolve([], stack);
      assert [] + stack == stack;
    }
  }

  /** Exactly the paths with no prefix of more parent steps than names succeed, and the result has only names. */
  lemma SucceedsIff(s: string, origin: Origin)
    requires origin != UnknownOrigin
    ensures Normalize(s, origin).Path? <==> NeverClimbsOut(0, Split(Separated(s, origin), '/'))
    ensures Normalize(s, origin).Path? ==>
              Normalize(s, origin).text == "" || forall x :: x in Split(Normalize(s, origin).text, '/') ==> IsName(x)
  {
    ResolvesIff([], Split(Separated(s, origin), '/'));
    if Normalize(s, origin).Path? {
      var stack := NormalForm(s, origin);
      if stack != [] {
        JoinSplits(stack, '/');
      }
    }
  }

  // ----- what the normal form is made of -----

  /** The components of a path; under Windows a backslash separates too. */
  ghost predicate Reads(s: string, origin: Origin, components: seq<string>) {
    && components != [] && (forall x :: x in components ==> '/' !in x)
    && var text := Join(components, '/');
       |text| == |s| && forall i :: 0 <= i < |s| ==> text[i] == if origin == Windows && s[i] == '\\' then '/' else s[i]
  }

  /** Component `k` is a name that no later parent step takes back. */
  ghost predicate Survives(components: seq<string>, k: nat) {
    && k < |components| && IsName(components[k])
    && forall j :: k < j <= |components| ==> DepthAfter(components, j) > DepthAfter(components, k)
  }

  ghost predicate Survivors(components: seq<string>, positions: seq<nat>) {
    && (forall i, j :: 0 <= i < j < |positions| ==> positions[i] < positions[j])
    && forall k :: k in positions <==> Survives(components, k)
  }

  ghost predicate NamesAt(components: seq<string>, positions: seq<nat>, names: seq<string>) {
    && |names| == |positions|
    && forall i :: 0 <= i < |names| ==> positions[i] < |components| && names[i] == components[positions[i]]
  }

  lemma SurvivedFront(components: seq<string>, k: nat)
    requires Survives(components, k) && k < |components| - 1
    ensures Survives(components[..|components| - 1], k) && Depth(components) > DepthAfter(components, k)
  {
    DepthsOfFront(components);
    assert DepthAfter(components, |components|) > DepthAfter(components, k);
  }

  lemma FrontSurvives(components: seq<string>, k: nat)
    requires components != [] && Survives(components[..|components| - 1], k)
    requires Depth(components) > DepthAfter(components, k)
    ensures Survives(components, k)
  {
    var front := components[..|components| - 1];
    DepthsOfFront(components);
    forall j | k < j <= |components| ensures DepthAfter(components, j) > DepthAfter(components, k) {
      if j < |components| {
        assert DepthAfter(front, j) > DepthAfter(front, k);
      }
    }
  }

  lemma LastSurvives(components: seq<string>)
    requires components != []
    ensures Survives(components, |components| - 1) <==> IsName(components[|components| - 1])
  {
    DepthsOfFront(components);
  }

  lemma SurvivesSnoc(components: seq<string>, k: nat)
    requires components != []
    ensures var n := |components| - 1;
            Survives(components, k) <==>
            || (Survives(components[..n], k) && Depth(components) > DepthAfter(components, k))
            || (k == n && IsName(components[n]))
  {
    var n := |components| - 1;
    if k == n {
      LastSurvives(components);
    } else if Survives(components, k) {
      SurvivedFront(components, k);
    } else if Survives(components[..n], k) && Depth(components) > DepthAfter(components, k) {
      FrontSurvives(components, k);
    }
  }

  /** Survivor `i` was pushed at depth `i`. */
  ghost predicate AtOwnDepth(components: seq<string>, positions: seq<nat>) {
    forall i :: 0 <= i < |positions| ==>
      positions[i] < |components| && DepthAfter(components, positions[i]) == i
  }

  /** The positions are those of the survivors, and the stack holds their names. */
  ghost predicate Tracks(components: seq<string>, positions: seq<nat>) {
    && Survivors(components, positions) && AtOwnDepth(components, positions)
    && Resolve([], components).Some? && NamesAt(components, positions, Resolve([], components).value)
  }

  lemma FrontTracked(components: seq<string>, before: seq<nat>)
    requires components != [] && Tracks(components[..|components| - 1], before)
    ensures Depth(components[..|components| - 1]) == |before|
    ensures AtOwnDepth(components, before)
  {
    ResolvesIff([], components[..|components| - 1]);
    DepthsOfFront(components);
  }

  lemma TracksNothing(components: seq<string>, before: seq<nat>)
    requires components != [] && Tracks(components[..|components| - 1], before)
    requires components[|components| - 1] == "" || components[|components| - 1] == "."
    ensures Tracks(components, before)
  {
    FrontTracked(components, before);
    forall k ensures k in before <==> Survives(components, k) {
      SurvivesSnoc(components, k);
      assert k in before <==> Survives(components[..|components| - 1], k);
    }
  }

  lemma TracksName(components: seq<string>, before: seq<nat>)
    requires components != [] && Tracks(components[..|components| - 1], before)
    requires IsName(components[|components| - 1])
    ensures Tracks(components, before + [|components| - 1])
  {
    var n := |components| - 1;
    FrontTracked(components, before);
    DepthsOfFront(components);
    assert components[..n][..n] == components[..n];
    forall k ensures k in before + [n] <==> Survives(components, k) {
      SurvivesSnoc(components, k);
      assert k in before <==> Survives(components[..n], k);
    }
  }

  lemma TracksParent(components: seq<string>, before: seq<nat>)
    requires components != [] && Tracks(components[..|components| - 1], before)
    requires components[|components| - 1] == ".." && before != []
    ensures Tracks(components, before[..|before| - 1])
  {
    var last := |before| - 1;
    FrontTracked(components, before);
    forall k ensures k in before[..last] <==> Survives(components, k) {
      SurvivesSnoc(components, k);
      assert k in before <==> Survives(components[..|components| - 1], k);
      if k in before {
        var i :| 0 <= i < |before| && before[i] == k;
        assert k in before[..last] <==> i < last;
      }
    }
  }

  lemma {:induction false} SurvivorsOf(components: seq<string>) returns (positions: seq<nat>)
    requires Resolve([], components).Some?
    ensures Tracks(components, positions)
  {
    positions := [];
    if components != [] {
      var n := |components| - 1;
      var before := SurvivorsOf(components[..n]);
      if components[n] == "" || components[n] == "." {
        TracksNothing(components, before);
        positions := before;
      } else if components[n] == ".." {
        TracksParent(components, before);
        positions := before[..|before| - 1];
      } else {
        TracksName(components, before);
        positions := before + [n];
      }
    }
  }

  lemma {:induction false} ReplaceAt(s: string)
    ensures |ReplaceBackslashes(s)| == |s|
    ensures forall i :: 0 <= i < |s| ==> ReplaceBackslashes(s)[i] == if s[i] == '\\' then '/' else s[i]
  {
    if s == [] {
    } else {
      ReplaceAt(s[1..]);
    }
  }

  /** Every path has components, and in one way only. */
  lemma ReadsIff(s: string, origin: Origin, components: seq<string>)
    ensures Reads(s, origin, components) <==> components == Split(Separated(s, origin), '/')
  {
    var text := Separated(s, origin);
    ReplaceAt(s);
    PartsLackMark(text, '/');
    SplitJoins(text, '/');
    if Reads(s, origin, components) {
      assert Join(components, '/') == text;
      JoinSplits(components, '/');
    }
  }

  ghost predicate Spells(text: string, names: seq<string>) {
    if names == [] then text == "" else text == Join(names, '/')
  }

  /** The text of exactly the surviving names, in the order of the path. */
  ghost predicate IsNormalForm(components: seq<string>, text: string) {
    exists positions, names ::
      Survivors(components, positions) && NamesAt(components, positions, names) && Spells(text, names)
  }

  /** A path fails exactly when it climbs out; otherwise its normal form is the text of the surviving names. */
  lemma NormalFormMeans(s: string, origin: Origin, components: seq<string>)
    requires origin != UnknownOrigin && Reads(s, origin, components)
    ensures if NeverClimbsOut(0, components)
            then Normalize(s, origin).Path? && IsNormalForm(components, Normalize(s, origin).text)
            else Normalize(s, origin) == EscapesRoot
  {
    ReadsIff(s, origin, components);
    ResolvesIff([], components);
    if NeverClimbsOut(0, components) {
      var positions := SurvivorsOf(components);
      assert Spells(Normalize(s, origin).text, Resolve([], components).value);
    }
  }

  // ----- normalizing again, and piece by piece -----

  lemma Idempotent(s: string, origin: Origin)
    requires Normalize(s, origin).Path?
    ensures Normalize(Normalize(s, origin).text, origin) == Normalize(s, origin)
  {
    var stack := NormalForm(s, origin);
    NormalTextResolves(stack, origin);
  }

  lemma SeparatedConcat(p: string, q: string, origin: Origin)
    ensures Split(Separated(p + "/" + q, origin), '/') ==
            Split(Separated(p, origin), '/') + Split(Separated(q, origin), '/')
  {
    if origin == Windows {
      ReplaceConcat(p + "/", q);
      ReplaceConcat(p, "/");
      assert ReplaceBackslashes("/") == "/";
    }
    SplitConcat(Separated(p, origin), Separated(q, origin), '/');
  }

  /** A path may be normalized piece by piece, and a failing first piece fails the whole. */
  lemma Compositional(p: string, q: string, origin: Origin)
    ensures Normalize(p + "/" + q, origin) ==
            if Normalize(p, origin).Path?
            then Normalize(Normalize(p, origin).text + "/" + q, origin)
            else Normalize(p, origin)
  {
    if origin != UnknownOrigin {
      var a, b := Split(Separated(p, origin), '/'), Split(Separated(q, origin), '/');
      SeparatedConcat(p, q, origin);
      ResolveConcat([], a, b);
      if Normalize(p, origin).Path? {
        var stack := NormalForm(p, origin);
        var text := JoinPath(stack);
        NormalTextResolves(stack, origin);
        SeparatedConcat(text, q, origin);
        ResolveConcat([], Split(Separated(text, origin), '/'), b);
      }
    }
  }

  predicate IsComponent(s: string, origin: Origin) {
    '/' !in s && (origin == Windows ==> '\\' !in s)
  }

  lemma AppendComponent(p: string, component: string, origin: Origin) returns (stack: seq<string>)
    requires IsComponent(component, origin) && Normalize(p, origin).Path?
    ensures Normalize(p, origin) == Path(JoinPath(stack))
    ensures Resolve([], Split(Separated(p, origin), '/')) == Some(stack)
    ensures Resolve([], Split(Separated(p + "/" + component, origin), '/')) == Push(stack, component)
  {
    stack := NormalForm(p, origin);
    ReplaceMeans(component);
    SplitWithoutMark(component, '/');
    SeparatedConcat(p, component, origin);
    ResolveConcat([], Split(Separated(p, origin), '/'), [component]);
    assert [component][..0] == [];
  }

  /** A name is appended to the normal form, and a parent step takes back exactly the last name. */
  lemma AppendName(p: string, name: string, origin: Origin)
    requires IsName(name) && IsComponent(name, origin) && Normalize(p, origin).Path?
    ensures var text := Normalize(p, origin).text;
            Normalize(p + "/" + name, origin) == Path(if text == "" then name else text + "/" + name)
    ensures Normalize(p + "/" + name + "/" + "..", origin) == Normalize(p, origin)
  {
    var stack := AppendComponent(p, name, origin);
    var longer := AppendComponent(p + "/" + name, "..", origin);
    assert longer == stack + [name];
    assert longer[..|stack|] == stack;
    if stack != [] {
      JoinAppend(stack, name, '/');
    }
    NonEmptyText(p, origin);
  }

  lemma NonEmptyText(p: string, origin: Origin)
    requires Normalize(p, origin).Path?
    ensures Normalize(p, origin).text == "" <==> Resolve([], Split(Separated(p, origin), '/')) == Some([])
  {
    var stack := NormalForm(p, origin);
    if stack != [] {
      assert IsName(stack[0]);
    }
  }

  /** Empty and `.` components change nothing. */
  lemma AppendNothing(p: string, origin: Origin)
    requires Normalize(p, origin).Path?
    ensures Normalize(p + "/" + "", origin) == Normalize(p, origin)
    ensures Normalize(p + "/" + ".", origin) == Normalize(p, origin)
  {
    var a := AppendComponent(p, "", origin);
    var b := AppendComponent(p, ".", origin);
  }
}

/** Path normalization: `.`, `..` and repeated slashes are resolved textually. */
module Paths {
  // ----- splitting and joining at `/` -----

  function Split(s: string): (r: seq<string>)
    ensures r != []
  {
    if s == [] then [""]
    else if s[0] == '/' then [""] + Split(s[1..])
    else
      var r := Split(s[1..]);
      [[s[0]] + r[0]] + r[1..]
  }

  function Join(cs: seq<string>): (s: string) {
    if cs == [] then ""
    else if |cs| == 1 then cs[0]
    else cs[0] + "/" + Join(cs[1..])
  }

  lemma {:induction false} SplitAppend(a: string, b: string)
    ensures Split(a + "/" + b) == Split(a) + Split(b)
    decreases |a|
  {
    var s := a + "/" + b;
    if a == [] {
      assert s == "/" + b && s[1..] == b;
    } else {
      assert s[1..] == a[1..] + "/" + b;
      SplitAppend(a[1..], b);
    }
  }

  lemma {:induction false} SplitPlain(c: string)
    requires '/' !in c
    ensures Split(c) == [c]
    decreases |c|
  {
    if c != [] {
      SplitPlain(c[1..]);
      assert [c[0]] + c[1..] == c;
    }
  }

  lemma {:induction false} PartsHaveNoSlash(s: string)
    ensures forall p :: p in Split(s) ==> '/' !in p
    decreases |s|
  {
    if s != [] {
      PartsHaveNoSlash(s[1..]);
      var r := Split(s[1..]);
      assert r[0] in r;
      assert forall p :: p in r[1..] ==> p in r;
    }
  }

  // ----- the component stack -----

  predicate Proper(c: string) {
    c != "" && c != "." && c != ".." && '/' !in c
  }

  predicate AllProper(cs: seq<string>) {
    forall i :: 0 <= i < |cs| ==> Proper(cs[i])
  }

  function Step(stack: seq<string>, part: string): (r: seq<string>) {
    if part == "" || part == "." then stack
    else if part == ".." then if stack == [] then [] else stack[..|stack| - 1]
    else stack + [part]
  }

  function Fold(stack: seq<string>, parts: seq<string>): (r: seq<string>)
    decreases |parts|
  {
    if parts == [] then stack else Fold(Step(stack, parts[0]), parts[1..])
  }

  lemma {:induction false} FoldAppend(stack: seq<string>, a: seq<string>, b: seq<string>)
    ensures Fold(stack, a + b) == Fold(Fold(stack, a), b)
    decreases |a|
  {
    if a == [] {
      assert a + b == b;
    } else {
      assert (a + b)[1..] == a[1..] + b;
      FoldAppend(Step(stack, a[0]), a[1..], b);
    }
  }

  lemma {:induction false} FoldIsProper(stack: seq<string>, parts: seq<string>)
    requires AllProper(stack) && forall p :: p in parts ==> '/' !in p
    ensures AllProper(Fold(stack, parts))
    decreases |parts|
  {
    if parts != [] {
      assert parts[0] in parts;
      FoldIsProper(Step(stack, parts[0]), parts[1..]);
    }
  }

  lemma {:induction false} FoldKeepsProper(stack: seq<string>, cs: seq<string>)
    requires AllProper(cs)
    ensures Fold(stack, cs) == stack + cs
    decreases |cs|
  {
    if cs == [] {
      assert stack + cs == stack;
    } else {
      assert Proper(cs[0]);
      FoldKeepsProper(stack + [cs[0]], cs[1..]);
      assert stack + [cs[0]] + cs[1..] == stack + cs;
    }
  }

  /** Joined components read back as themselves. */
  lemma {:induction false} FoldOfJoined(stack: seq<string>, cs: seq<string>)
    requires AllProper(cs)
    ensures Fold(stack, Split(Join(cs))) == stack + cs
    decreases |cs|
  {
    if cs == [] {
      assert Split("") == [""] && Fold(stack, [""]) == stack;
      assert stack + cs == stack;
    } else if |cs| == 1 {
      assert Proper(cs[0]);
      SplitPlain(cs[0]);
      assert Split(Join(cs)) == cs;
      FoldKeepsProper(stack, cs);
    } else {
      assert Proper(cs[0]);
      SplitAppend(cs[0], Join(cs[1..]));
      SplitPlain(cs[0]);
      FoldAppend(stack, [cs[0]], Split(Join(cs[1..])));
      assert Fold(stack, [cs[0]]) == stack + [cs[0]];
      FoldOfJoined(stack + [cs[0]], cs[1..]);
      assert stack + [cs[0]] + cs[1..] == stack + cs;
    }
  }

  // ----- normalization -----

  predicate Absolute(path: string) { path != [] && path[0] == '/' }

  function Components(path: string): (cs: seq<string>) { Fold([], Split(path)) }

  function Render(absolute: bool, cs: seq<string>): (s: string) {
    if absolute then "/" + Join(cs) else if cs == [] then "." else Join(cs)
  }

  function Normalize(path: string): (s: string) { Render(Absolute(path), Components(path)) }

  method NormalizePath(path: string) returns (s: string)
    ensures s == Normalize(path)
  {
    var components: seq<string> := [];
    var parts := Split(path);
    for i := 0 to |parts|
      invariant Fold(components, parts[i..]) == Fold([], parts)
    {
      var part := parts[i];
      assert parts[i..][1..] == parts[i + 1..];
      if part == "" || part == "." {
      } else if part == ".." {
        if components != [] { components := components[..|components| - 1]; }
      } else {
        components := components + [part];
      }
    }
    PartsHaveNoSlash(path);
    FoldIsProper([], parts);
    JoinedIsEmpty(components);
    var joined := Join(components);
    if path != [] && path[0] == '/' {
      s := "/" + joined;
    } else if joined == [] {
      s := ".";
    } else {
      s := joined;
    }
  }

  lemma JoinedIsEmpty(cs: seq<string>)
    requires AllProper(cs)
    ensures Join(cs) == [] <==> cs == []
    ensures cs != [] ==> Join(cs)[0] == cs[0][0] != '/'
  {
    if cs != [] { assert Proper(cs[0]) && cs[0][0] in cs[0]; }
  }

  /** A path of proper components is normal already. */
  lemma ProperPathsStay(absolute: bool, cs: seq<string>)
    requires AllProper(cs)
    ensures Normalize(Render(absolute, cs)) == Render(absolute, cs) && Components(Render(absolute, cs)) == cs
  {
    FoldOfJoined([], cs);
    assert [] + cs == cs;
    JoinedIsEmpty(cs);
    if absolute {
      assert ("/" + Join(cs))[1..] == Join(cs);
      FoldAppend([], [""], Split(Join(cs)));
      assert Fold([], [""]) == [];
    } else if cs == [] {
      SplitPlain(".");
      assert Fold([], ["."]) == [];
    }
  }

  /** No empty, `.` or `..` component survives, and reading the result back gives the same components. */
  lemma ComponentsOfNormalized(path: string)
    ensures AllProper(Components(path))
    ensures Absolute(Normalize(path)) <==> Absolute(path)
    ensures Components(Normalize(path)) == Components(path)
  {
    PartsHaveNoSlash(path);
    FoldIsProper([], Split(path));
    JoinedIsEmpty(Components(path));
    ProperPathsStay(Absolute(path), Components(path));
  }

  lemma NormalizeIsIdempotent(path: string)
    ensures Normalize(Normalize(path)) == Normalize(path)
  {
    ComponentsOfNormalized(path);
  }

  /** Normalizing a prefix first makes no difference. */
  lemma NormalizeOfJoin(a: string, b: string)
    requires Absolute(a)
    ensures Normalize(a + "/" + b) == Normalize(Normalize(a) + "/" + b)
  {
    var n := Normalize(a);
    ComponentsOfNormalized(a);
    SplitAppend(a, b);
    SplitAppend(n, b);
    FoldAppend([], Split(a), Split(b));
    FoldAppend([], Split(n), Split(b));
    assert Absolute(a + "/" + b) && Absolute(n + "/" + b);
  }

  // ----- what the special components do -----

  lemma ComponentsAppend(a: string, part: string)
    requires '/' !in part
    ensures Components(a + "/" + part) == Step(Components(a), part)
  {
    SplitAppend(a, part);
    SplitPlain(part);
    FoldAppend([], Split(a), [part]);
    assert [part][1..] == [];
  }

  /** A proper component is added behind the others ... */
  lemma ProperIsAdded(a: string, c: string)
    requires Proper(c)
    ensures Components(a + "/" + c) == Components(a) + [c]
  {
    ComponentsAppend(a, c);
  }

  /** ... `..` takes the component before it away, at the root nothing, and `.` and empty components do nothing. */
  lemma DotDotDropsComponent(a: string, c: string)
    requires a != [] && Proper(c)
    ensures Normalize(a + "/" + c + "/..") == Normalize(a)
    ensures Normalize(a + "/.") == Normalize(a) == Normalize(a + "/")
    ensures Components(a) == [] ==> Normalize(a + "/..") == Normalize(a)
  {
    ComponentsAppend(a, c);
    ComponentsAppend(a + "/" + c, "..");
    assert a + "/" + c + "/" + ".." == a + "/" + c + "/..";
    assert (Components(a) + [c])[..|Components(a)|] == Components(a);
    ComponentsAppend(a, ".");
    ComponentsAppend(a, "");
    ComponentsAppend(a, "..");
    assert a + "/" + "." == a + "/." && a + "/" + "" == a + "/" && a + "/" + ".." == a + "/..";
  }

  lemma {:induction false} SplitOfJoined(cs: seq<string>)
    requires AllProper(cs) && cs != []
    ensures Split(Join(cs)) == cs
    decreases |cs|
  {
    assert Proper(cs[0]);
    SplitPlain(cs[0]);
    if |cs| > 1 {
      SplitAppend(cs[0], Join(cs[1..]));
      SplitOfJoined(cs[1..]);
      assert cs == [cs[0]] + cs[1..];
    } else {
      assert cs == [cs[0]];
    }
  }

  /** As text: the components with one `/` between them, behind one if absolute; `/` or `.` without any. */
  lemma NormalText(path: string)
    ensures var cs := Components(path);
            if cs == [] then Normalize(path) == (if Absolute(path) then "/" else ".")
            else Split(Normalize(path)) == (if Absolute(path) then [""] else []) + cs
  {
    var cs := Components(path);
    PartsHaveNoSlash(path);
    FoldIsProper([], Split(path));
    if cs != [] {
      SplitOfJoined(cs);
      assert Absolute(path) ==> ("/" + Join(cs))[1..] == Join(cs);
      assert [] + cs == cs;
    }
  }
}

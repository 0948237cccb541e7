/** What a client-visible path means: a stack of directory names, reached by walking the '/'-separated
    components from the root. Nothing here looks at buffers or states. */
module Paths {
  import opened CStrings

  /** A component that names something: neither empty, nor "." nor "..". */
  predicate IsName(c: string) {
    c != "" && c != "." && c != ".." && '/' !in c
  }

  predicate AreNames(stack: seq<string>) {
    forall i | 0 <= i < |stack| :: IsName(stack[i])
  }

  /** The pieces of `p` between slashes, empty ones included. */
  function Components(p: string): (r: seq<string>)
    ensures r != []
  {
    if p == "" then [""]
    else
      var r := Components(p[1..]);
      if p[0] == '/' then [""] + r else [[p[0]] + r[0]] + r[1..]
  }

  function Step(stack: seq<string>, c: string): seq<string> {
    if c == "" || c == "." then stack
    else if c == ".." then if stack == [] then [] else stack[..|stack| - 1]
    else stack + [c]
  }

  function Resolve(stack: seq<string>, comps: seq<string>): seq<string>
    decreases |comps|
  {
    if comps == [] then stack else Resolve(Step(stack, comps[0]), comps[1..])
  }

  /** The directory stack that the path `p`, read from the root, leads to. */
  function Walk(p: string): seq<string> {
    Resolve([], Components(p))
  }

  /** "/a/b/": the spelling of a directory, always ending in a slash. */
  function Dir(stack: seq<string>): (r: string)
    ensures r != "" && r[0] == '/' && r[|r| - 1] == '/'
  {
    if stack == [] then "/" else Dir(stack[..|stack| - 1]) + stack[|stack| - 1] + "/"
  }

  /** "/a/b", or "/" for the root. */
  function Render(stack: seq<string>): string {
    if stack == [] then "/" else Dir(stack[..|stack| - 1]) + stack[|stack| - 1]
  }

  function Normalise(p: string): string {
    Render(Walk(p))
  }

  predicate IsAbsolute(p: string) {
    p != "" && p[0] == '/'
  }

  /** The path a command argument denotes: itself when absolute, else appended to the working directory. */
  function Joined(cwd: string, path: string): string {
    if IsAbsolute(path) then path else cwd + path
  }

  // ---- Components and Resolve

  lemma {:induction false} ComponentsOfSlashFree(c: string)
    requires '/' !in c
    ensures Components(c) == [c]
  {
    if c != "" {
      assert c[0] in c;
      assert '/' !in c[1..];
      ComponentsOfSlashFree(c[1..]);
      assert [c[0]] + c[1..] == c;
    }
  }

  /** A slash separates: components on its left and on its right do not see each other. */
  lemma {:induction false} ComponentsOfJoin(a: string, b: string)
    ensures Components(a + "/" + b) == Components(a) + Components(b)
  {
    var p := a + "/" + b;
    if a == "" {
      assert p[1..] == b;
    } else {
      assert p[1..] == a[1..] + "/" + b;
      ComponentsOfJoin(a[1..], b);
    }
  }

  lemma {:induction false} ComponentsSlashFree(p: string)
    ensures forall i | 0 <= i < |Components(p)| :: '/' !in Components(p)[i]
  {
    if p != "" {
      ComponentsSlashFree(p[1..]);
    }
  }

  lemma {:induction false} ResolveAppend(stack: seq<string>, xs: seq<string>, ys: seq<string>)
    ensures Resolve(stack, xs + ys) == Resolve(Resolve(stack, xs), ys)
    decreases |xs|
  {
    if xs == [] {
      assert xs + ys == ys;
    } else {
      assert (xs + ys)[1..] == xs[1..] + ys;
      ResolveAppend(Step(stack, xs[0]), xs[1..], ys);
    }
  }

  lemma {:induction false} ResolveNames(stack: seq<string>, comps: seq<string>)
    requires AreNames(stack)
    requires forall i | 0 <= i < |comps| :: '/' !in comps[i]
    ensures AreNames(Resolve(stack, comps))
    decreases |comps|
  {
    if comps != [] {
      ResolveNames(Step(stack, comps[0]), comps[1..]);
    }
  }

  lemma WalkNames(p: string)
    ensures AreNames(Walk(p))
  {
    ComponentsSlashFree(p);
    ResolveNames([], Components(p));
  }

  lemma WalkOfNothing()
    ensures Walk("") == []
  {
    assert Resolve([], [""]) == Resolve([], []);
  }

  /** Walking one more component after a slash is one step of the stack. */
  lemma WalkStep(e: string, c: string)
    requires '/' !in c
    ensures Walk(e + "/" + c) == Step(Walk(e), c)
  {
    ComponentsOfJoin(e, c);
    ComponentsOfSlashFree(c);
    ResolveAppend([], Components(e), [c]);
    assert Resolve(Walk(e), [c]) == Step(Walk(e), c);
  }

  /** What a path means, outright: a name leads one level down, "" and "." lead nowhere, and ".." leads one level up, but
      not above the root. With `WalkOfNothing` these laws fix where every path leads. */
  lemma WalkMeans(e: string, c: string)
    requires '/' !in c
    ensures IsName(c) ==> Walk(e + "/" + c) == Walk(e) + [c]
    ensures c == "" || c == "." ==> Walk(e + "/" + c) == Walk(e)
    ensures c == ".." && Walk(e) == [] ==> Walk(e + "/" + c) == []
    ensures forall s, x | c == ".." && Walk(e) == s + [x] :: Walk(e + "/" + c) == s
  {
    WalkStep(e, c);
    forall s, x | c == ".." && Walk(e) == s + [x]
      ensures Walk(e + "/" + c) == s
    {
      assert (s + [x])[..|s|] == s;
    }
  }

  /** The same in spellings: "p/x/.." is "p", and so are "p/", "p/." and "p//"; and nothing is above the root. */
  lemma NormaliseMeans(p: string, x: string)
    requires IsName(x)
    ensures Normalise(p + "/" + x + "/" + "..") == Normalise(p + "/") == Normalise(p)
    ensures Normalise(p + "/" + ".") == Normalise(p + "/" + "/") == Normalise(p + "/")
    ensures Normalise("/" + "..") == Normalise("/") == "/"
    ensures Normalise(p + "/" + x) == (if Normalise(p) == "/" then "" else Normalise(p)) + "/" + x
  {
    assert p + "/" + "" == p + "/" && p + "/" + "/" == p + "/" + "/" + "";
    WalkMeans(p, "");
    WalkMeans(p, ".");
    WalkMeans(p + "/", "");
    WalkMeans(p, x);
    WalkMeans(p + "/" + x, "..");
    WalkOfNothing();
    assert "" + "/" + ".." == "/" + ".." && "" + "/" + "" == "/";
    WalkMeans("", "..");
    WalkMeans("", "");
    NormaliseName(p, x);
  }

  lemma NormaliseName(p: string, x: string)
    requires IsName(x)
    ensures Normalise(p + "/" + x) == (if Normalise(p) == "/" then "" else Normalise(p)) + "/" + x
  {
    WalkMeans(p, x);
    WalkNames(p);
    var s := Walk(p);
    assert (s + [x])[..|s|] == s;
    DirOfRender(s);
    if s != [] {
      assert IsName(s[|s| - 1]);
      assert Render(s)[|Render(s)| - 1] == s[|s| - 1][|s[|s| - 1]| - 1] != '/';
    }
  }

  // ---- Dir and Render spell stacks faithfully

  /** A directory's spelling is some `e` and a slash, where `e` has the directory's names for components. */
  lemma {:induction false} ComponentsOfDir(stack: seq<string>) returns (e: string)
    requires AreNames(stack)
    ensures Dir(stack) == e + "/" && Components(e) == [""] + stack
  {
    if stack == [] {
      e := "";
    } else {
      var init, last := stack[..|stack| - 1], stack[|stack| - 1];
      var d := ComponentsOfDir(init);
      e := d + "/" + last;
      ComponentsOfJoin(d, last);
      ComponentsOfSlashFree(last);
      assert [""] + init + [last] == [""] + stack;
    }
  }

  lemma {:induction false} ResolveOfNames(stack: seq<string>, names: seq<string>)
    requires AreNames(names)
    ensures Resolve(stack, names) == stack + names
    decreases |names|
  {
    if names != [] {
      ResolveOfNames(stack + [names[0]], names[1..]);
    }
  }

  /** Appending a path to a directory's spelling continues the walk from that directory. */
  lemma WalkFromDir(stack: seq<string>, p: string)
    requires AreNames(stack)
    ensures Walk(Dir(stack) + p) == Resolve(stack, Components(p))
  {
    var e := ComponentsOfDir(stack);
    ComponentsOfJoin(e, p);
    ResolveAppend([], [""] + stack, Components(p));
    ResolveOfNames([], stack);
    assert ([""] + stack)[1..] == stack;
    assert [] + stack == stack;
  }

  /** Stopping at a slash, spelling the directory reached and going on from there changes nothing. */
  lemma WalkThroughDir(p: string, q: string)
    ensures Walk(p + "/" + q) == Walk(Dir(Walk(p)) + q)
  {
    ComponentsOfJoin(p, q);
    ResolveAppend([], Components(p), Components(q));
    WalkNames(p);
    WalkFromDir(Walk(p), q);
  }

  lemma DirOfRender(stack: seq<string>)
    ensures Dir(stack) == if stack == [] then Render(stack) else Render(stack) + "/"
  {
  }

  lemma WalkOfDir(stack: seq<string>)
    requires AreNames(stack)
    ensures Walk(Dir(stack)) == stack
  {
    assert Dir(stack) + "" == Dir(stack);
    WalkFromDir(stack, "");
    ComponentsOfSlashFree("");
    assert Resolve(stack, [""]) == Resolve(stack, []);
  }

  /** Rendering loses nothing: walking the spelling of a stack gives the stack back. */
  lemma {:induction false} WalkOfRender(stack: seq<string>)
    requires AreNames(stack)
    ensures Walk(Render(stack)) == stack
  {
    if stack == [] {
      WalkOfDir(stack);
    } else {
      var init, last := stack[..|stack| - 1], stack[|stack| - 1];
      WalkFromDir(init, last);
      ComponentsOfSlashFree(last);
      assert Resolve(init, [last]) == Resolve(Step(init, last), []);
      assert init + [last] == stack;
    }
  }

  lemma RenderInjective(s: seq<string>, t: seq<string>)
    requires AreNames(s) && AreNames(t) && Render(s) == Render(t)
    ensures s == t
  {
    WalkOfRender(s);
    WalkOfRender(t);
  }

  /** Normalising is idempotent, and its results are exactly the canonical spellings: a path is left alone
      if and only if it spells some stack of names. */
  lemma NormaliseIdempotent(p: string)
    ensures Normalise(Normalise(p)) == Normalise(p)
    ensures Normalise(p) == p <==> exists stack :: AreNames(stack) && p == Render(stack)
  {
    WalkNames(p);
    WalkOfRender(Walk(p));
    if Normalise(p) == p {
      assert AreNames(Walk(p)) && p == Render(Walk(p));
    }
    forall stack | AreNames(stack) && p == Render(stack)
      ensures Normalise(p) == p
    {
      WalkOfRender(stack);
    }
  }

  /** Two paths normalise to the same string exactly when they lead to the same directory stack. */
  lemma NormaliseIsWalk(p: string, q: string)
    ensures Normalise(p) == Normalise(q) <==> Walk(p) == Walk(q)
  {
    WalkNames(p);
    WalkNames(q);
    if Normalise(p) == Normalise(q) {
      RenderInjective(Walk(p), Walk(q));
    }
  }

  /** Normalising never lengthens an absolute path. */
  lemma {:induction false} ResolveLength(stack: seq<string>, p: string)
    requires AreNames(stack)
    ensures |Dir(Resolve(stack, Components(p)))| <= |Dir(stack)| + |p| + 1
    decreases |p|
  {
    var i := CutAt(p);
    var c := p[..i];
    StepLength(stack, c);
    if i == |p| {
      assert p == c;
      ComponentsOfSlashFree(p);
      assert Resolve(stack, [p]) == Step(stack, p);
    } else {
      var rest := p[i + 1..];
      assert p == c + "/" + rest;
      ComponentsOfJoin(c, rest);
      ComponentsOfSlashFree(c);
      ResolveAppend(stack, [c], Components(rest));
      assert Resolve(stack, [c]) == Step(stack, c);
      ResolveLength(Step(stack, c), rest);
    }
  }

  function CutAt(p: string): (i: nat)
    ensures i <= |p| && '/' !in p[..i] && (i < |p| ==> p[i] == '/')
  {
    if p == "" || p[0] == '/' then 0
    else
      var i := CutAt(p[1..]);
      assert p[..i + 1] == [p[0]] + p[1..][..i];
      i + 1
  }

  lemma StepLength(stack: seq<string>, c: string)
    requires AreNames(stack) && '/' !in c
    ensures AreNames(Step(stack, c))
    ensures |Dir(Step(stack, c))| <= |Dir(stack)| + |c| + 1
  {
  }

  lemma NormaliseLength(p: string)
    requires IsAbsolute(p)
    ensures |Normalise(p)| <= |p|
  {
    var rest := p[1..];
    assert p == "" + "/" + rest;
    ComponentsOfJoin("", rest);
    ResolveAppend([], Components(""), Components(rest));
    WalkOfNothing();
    ResolveLength([], rest);
    DirOfRender(Walk(p));
  }

  // ---- Characters of a normalised path come from the path

  lemma {:induction false} ComponentsChars(p: string, x: char)
    requires x !in p
    ensures forall i | 0 <= i < |Components(p)| :: x !in Components(p)[i]
  {
    if p != "" {
      assert p[0] in p;
      assert x !in p[1..];
      ComponentsChars(p[1..], x);
    }
  }

  lemma {:induction false} ResolveChars(stack: seq<string>, comps: seq<string>, x: char)
    requires forall i | 0 <= i < |stack| :: x !in stack[i]
    requires forall i | 0 <= i < |comps| :: x !in comps[i]
    ensures forall i | 0 <= i < |Resolve(stack, comps)| :: x !in Resolve(stack, comps)[i]
    decreases |comps|
  {
    if comps != [] {
      ResolveChars(Step(stack, comps[0]), comps[1..], x);
    }
  }

  lemma {:induction false} DirChars(stack: seq<string>, x: char)
    requires forall i | 0 <= i < |stack| :: x !in stack[i]
    requires x != '/'
    ensures x !in Dir(stack) && x !in Render(stack)
  {
    if stack != [] {
      DirChars(stack[..|stack| - 1], x);
    }
  }

  lemma WalkChars(p: string, x: char)
    requires x !in p && x != '/'
    ensures forall i | 0 <= i < |Walk(p)| :: x !in Walk(p)[i]
    ensures x !in Dir(Walk(p)) && x !in Normalise(p)
  {
    ComponentsChars(p, x);
    ResolveChars([], Components(p), x);
    DirChars(Walk(p), x);
  }

  // ---- Reading a spelling from the left

  /** What follows the first name of a rendered stack. */
  function Tail(names: seq<string>): (r: string)
    ensures r == "" || r[0] == '/'
  {
    if names == [] then "" else DirOfRender(names); Render(names)
  }

  /** "a/b/c" */
  function Join(names: seq<string>): string {
    if names == [] then "" else DirOfRender(names); Render(names)[1..]
  }

  lemma SpellPush(stack: seq<string>, name: string)
    ensures Dir(stack + [name]) == Dir(stack) + name + "/"
    ensures Render(stack + [name]) == Dir(stack) + name
  {
    assert (stack + [name])[..|stack|] == stack;
  }

  lemma {:induction false} SpellFromLeft(first: string, rest: seq<string>)
    ensures Dir([first] + rest) == "/" + first + Dir(rest)
    ensures Render([first] + rest) == "/" + first + Tail(rest)
    decreases |rest|
  {
    if rest == [] {
      SpellPush([], first);
      assert [first] + rest == [] + [first];
    } else {
      var init, last := rest[..|rest| - 1], rest[|rest| - 1];
      SpellFromLeft(first, init);
      SpellPush([first] + init, last);
      SpellPush(init, last);
      FrontAndLast(first, rest);
    }
  }

  lemma FrontAndLast(first: string, rest: seq<string>)
    requires rest != []
    ensures [first] + rest[..|rest| - 1] + [rest[|rest| - 1]] == [first] + rest
    ensures rest[..|rest| - 1] + [rest[|rest| - 1]] == rest
  {
  }

  lemma ComponentsOfJoined(names: seq<string>)
    requires AreNames(names) && names != []
    ensures Components(Join(names)) == names
  {
    var e := ComponentsOfDir(names);
    DirOfRender(names);
    assert e == (e + "/")[..|e|] == Render(names);
    assert Render(names) == "" + "/" + Join(names);
    ComponentsOfJoin("", Join(names));
    assert Components(Join(names)) == ([""] + names)[1..];
  }
}

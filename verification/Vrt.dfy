/** The virtual path layer (vrt.c): client-visible paths, the device paths behind them, and chdir. */
module Vrt {
  import opened CStrings
  import opened Paths
  import opened Partitions

  // ---- virtual_abspath

  /** The scanner's state after a slash and then `partial`. */
  function StateOf(partial: string): nat {
    if partial == "" then 1 else if partial == "." then 2 else if partial == ".." then 3 else 0
  }

  lemma StateStep(partial: string, c: char)
    requires c != '/'
    ensures StateOf(partial + [c]) ==
            if c != '.' then 0
            else if StateOf(partial) == 1 then 2 else if StateOf(partial) == 2 then 3 else 0
  {
    var next := partial + [c];
    assert |next| == |partial| + 1 && next[|partial|] == c;
    assert partial == "." ==> next[0] == '.';
    assert next == ".." ==> partial[0] == next[0];
  }

  /** `p` up to its last slash, that slash included; "/" when it has none. */
  function ParentOf(p: string): (r: string)
    ensures |r| <= |p| || r == "/"
    ensures r != "" && (IsAbsolute(p) ==> r[0] == '/')
    decreases |p|
  {
    if p == "" then "/" else if p[|p| - 1] == '/' then p else ParentOf(p[..|p| - 1])
  }

  /** The buffer once a component is closed. `dir` is what precedes it, empty before the first slash of the path. */
  function CloseComponent(dir: string, partial: string): string {
    if dir == "" then partial + "/"
    else match StateOf(partial)
      case 0 => dir + partial + "/"
      case 3 => ParentOf(dir[..|dir| - 1])
      case _ => dir
  }

  lemma {:induction false} ParentOfName(dir: string, name: string)
    requires dir != "" && dir[|dir| - 1] == '/' && '/' !in name
    ensures ParentOf(dir + name) == dir
    decreases |name|
  {
    if name == "" {
      assert dir + name == dir;
    } else {
      var init := name[..|name| - 1];
      assert (dir + name)[..|dir + name| - 1] == dir + init;
      assert name[|name| - 1] in name;
      ParentOfName(dir, init);
    }
  }

  lemma CloseLength(dir: string, partial: string)
    ensures |CloseComponent(dir, partial)| <= |dir| + |partial| + 1
  {
  }

  /** Closing a component in the buffer is one step of the directory stack. */
  lemma CloseIsStep(stack: seq<string>, partial: string)
    requires AreNames(stack) && '/' !in partial
    ensures AreNames(Step(stack, partial))
    ensures CloseComponent(Dir(stack), partial) == Dir(Step(stack, partial))
    ensures StateOf(partial) == 0 ==> Dir(stack) + partial == Render(Step(stack, partial))
  {
    if partial == ".." && stack != [] {
      var init, last := stack[..|stack| - 1], stack[|stack| - 1];
      assert (Dir(init) + last + "/")[..|Dir(stack)| - 1] == Dir(init) + last;
      ParentOfName(Dir(init), last);
    } else if StateOf(partial) == 0 {
      assert (stack + [partial])[..|stack|] == stack;
    }
  }

  lemma {:induction false} ParentOfLastSlash(p: string, k: int)
    requires -1 <= k < |p| && (k >= 0 ==> p[k] == '/')
    requires forall i | k < i < |p| :: p[i] != '/'
    ensures ParentOf(p) == if k >= 0 then p[..k + 1] else "/"
    decreases |p|
  {
    if p == "" {
    } else if k == |p| - 1 {
      assert p[..k + 1] == p;
    } else {
      var init := p[..|p| - 1];
      ParentOfLastSlash(init, k);
      assert k >= 0 ==> init[..k + 1] == p[..k + 1];
    }
  }

  /** The ".." case of the scanner: cut the buffer back to the parent directory, or to the root. */
  method PopDirectory(buf: array<char>, currDir: nat, ghost out: string) returns (parentDir: nat)
    requires Holds(buf, out) && IsAbsolute(out) && currDir + 2 <= |out|
    modifies buf
    ensures Holds(buf, ParentOf(out[..currDir]))
    ensures parentDir == |ParentOf(out[..currDir])| - 1
  {
    ghost var cut := out[..currDir];
    buf[currDir] := NUL;
    assert buf[..currDir] == cut;
    parentDir := currDir;
    var prevDir := StrRChr(buf, '/', cut);
    ParentOfLastSlash(cut, prevDir);
    if prevDir >= 0 {
      parentDir := prevDir;
      assert buf[..prevDir + 1] == cut[..prevDir + 1];
    } else {
      buf[parentDir] := '/';
      assert buf[..1] == "/";
    }
    buf[parentDir + 1] := NUL;
    assert buf[..parentDir + 1] == ParentOf(cut);
  }

  /** Where the scanner stands: `dir` is the spelling up to the last slash read (empty before the first one),
      and `partial` is what was read since. */
  ghost predicate AtComponent(buf: array<char>, state: nat, currDir: nat, dir: string, partial: string)
    reads buf
  {
    && '/' !in partial && Holds(buf, dir + partial)
    && if dir == "" then state == 0 && partial == ""
       else dir[0] == '/' && currDir == |dir| - 1 && state == StateOf(partial)
  }

  /** One turn of the scanner on the byte `c` (NUL at the end of the path), editing the output buffer in place. */
  method Advance(buf: array<char>, state: nat, currDir: nat, c: char, ghost dir: string, ghost partial: string)
    returns (state': nat, currDir': nat)
    requires AtComponent(buf, state, currDir, dir, partial)
    requires dir == "" ==> c == '/'
    requires c != NUL ==> |dir + partial| + 1 < buf.Length
    modifies buf
    ensures c == '/' ==> AtComponent(buf, state', currDir', CloseComponent(dir, partial), "")
    ensures c == NUL ==> Holds(buf, if StateOf(partial) == 0 then dir + partial else CloseComponent(dir, partial))
    ensures c != NUL && c != '/' ==> AtComponent(buf, state', currDir', dir, partial + [c])
  {
    state', currDir' := state, currDir;
    ghost var out, closed := dir + partial, CloseComponent(dir, partial);
    if state == 0 {
      if c == '/' {
        state' := 1;
        currDir' := StrLen(buf, 0, out);
        Append(buf, '/', out);
      }
    } else if state == 1 {
      if c == '.' {
        state' := 2;
      } else if c != '/' {
        state' := 0;
      }
    } else if state == 2 {
      if c == '/' || c == NUL {
        state' := 1;
        buf[currDir + 1] := NUL;
        assert buf[..currDir + 1] == dir;
      } else if c == '.' {
        state' := 3;
      } else {
        state' := 0;
      }
    } else {
      if c == '/' || c == NUL {
        state' := 1;
        currDir' := PopDirectory(buf, currDir, out);
        assert out[..currDir] == dir[..|dir| - 1];
      } else {
        state' := 0;
      }
    }
    assert c == '/' ==> closed + "" == closed;
    if c != NUL && (state' == 0 || c != '/') {
      Append(buf, c, out);
      StateStep(partial, c);
      assert out + [c] == dir + (partial + [c]);
    }
  }

  /** The end of the scan: a directory's spelling keeps its slash, a last name has none yet. */
  ghost predicate Scanned(buf: array<char>, stack: seq<string>)
    reads buf
  {
    AreNames(stack) && (Holds(buf, Dir(stack)) || Holds(buf, Render(stack)))
  }

  /** What the scanner has understood of the bytes read so far: whole components up to `e`, then a slash, then
      `partial`; `dir` spells the directory that `e` leads to. Before the first slash there is nothing. */
  ghost predicate Understood(read: string, e: string, partial: string, dir: string) {
    if read == "" then partial == "" && dir == ""
    else
      && read == e + "/" + partial && '/' !in partial
      && AreNames(Walk(e)) && dir == Dir(Walk(e))
  }

  lemma Understand(read: string, e: string, partial: string, dir: string, c: char)
    returns (e': string, partial': string, dir': string)
    requires Understood(read, e, partial, dir)
    requires read == "" ==> c == '/'
    ensures Understood(read + [c], e', partial', dir')
    ensures |dir'| + |partial'| <= |dir| + |partial| + 1
    ensures partial' == if c == '/' then "" else partial + [c]
    ensures dir' == if c == '/' then CloseComponent(dir, partial) else dir
  {
    if read == "" {
      e', partial', dir' := "", "", "/";
      WalkOfNothing();
      assert read + [c] == e' + "/" + partial';
    } else if c == '/' {
      e', partial', dir' := e + "/" + partial, "", CloseComponent(dir, partial);
      WalkStep(e, partial);
      CloseIsStep(Walk(e), partial);
      CloseLength(dir, partial);
      assert read + [c] == e' + "/" + partial';
    } else {
      e', partial', dir' := e, partial + [c], dir;
      assert read + [c] == e' + "/" + partial';
    }
  }

  /** The four-state scanner: a turn for every byte of the path and one for its NUL. `buf` has |path| + 1 bytes,
      and no turn writes past them. */
  method Scan(path: string, buf: array<char>)
    requires IsAbsolute(path) && NUL !in path && buf.Length == |path| + 1
    modifies buf
    ensures Scanned(buf, Walk(path))
  {
    buf[0] := NUL;
    var currDir, state, token := 0, 0, 0;
    ghost var e, partial, dir := "", "", "";
    while token < |path|
      invariant token <= |path|
      invariant AtComponent(buf, state, currDir, dir, partial) && |dir| + |partial| <= token
      invariant Understood(path[..token], e, partial, dir) && (dir == "" <==> token == 0)
    {
      var c := path[token];
      state, currDir := Advance(buf, state, currDir, c, dir, partial);
      TakeNext(path, token);
      e, partial, dir := Understand(path[..token], e, partial, dir, c);
      token := token + 1;
    }
    assert path[..token] == path;
    state, currDir := Advance(buf, state, currDir, NUL, dir, partial);
    WalkStep(e, partial);
    CloseIsStep(Walk(e), partial);
  }

  /** Cut trailing slashes off the buffer, but never the first one. */
  method TrimSlashes(buf: array<char>, ghost stack: seq<string>) returns (r: string)
    requires Scanned(buf, stack)
    modifies buf
    ensures r == Render(stack) && Holds(buf, r)
  {
    ghost var out := if Holds(buf, Dir(stack)) then Dir(stack) else Render(stack);
    var end := StrLen(buf, 0, out);
    DirOfRender(stack);
    assert stack != [] ==> IsName(stack[|stack| - 1]);
    while end > 1 && buf[end - 1] == '/'
      invariant 1 <= end <= |out| && buf[..end] == out[..end] && buf[end] == NUL
      invariant out[..end] in {Dir(stack), Render(stack)}
    {
      end := end - 1;
      buf[end] := NUL;
    }
    r := buf[..end];
  }

  /** virtual_abspath: None when the joined path would not fit in `maxPathLen` bytes. */
  method VirtualAbspath(cwd: string, path: string, maxPathLen: nat) returns (r: Option<string>)
    requires IsAbsolute(cwd) && NUL !in cwd && NUL !in path
    ensures r == Abspath(cwd, path, maxPathLen)
    ensures r == None <==> !IsAbsolute(path) && |cwd + path| >= maxPathLen
    ensures r.Some? ==> r.value == Normalise(if IsAbsolute(path) then path else cwd + path)
  {
    var full := path;
    if !IsAbsolute(path) {
      if |cwd| + |path| + 1 > maxPathLen {
        return None;
      }
      full := cwd + path;
    }
    var buf := new char[|full| + 1];
    Scan(full, buf);
    var normalised := TrimSlashes(buf, Walk(full));
    r := Some(normalised);
  }

  function Abspath(cwd: string, path: string, maxPathLen: nat): Option<string> {
    if !IsAbsolute(path) && |cwd| + |path| + 1 > maxPathLen then None
    else Some(Normalise(Joined(cwd, path)))
  }

  // ---- to_real_path

  datatype Errno = NoEntry | NoDevice

  /** The real path behind a client-visible path. The empty string stands for the virtual root. */
  datatype RealPath = Invalid(error: Errno) | Real(path: string)

  /** The table entry whose name is `name`, letter case aside; |PARTITIONS| when there is none. */
  function DeviceFrom(name: string, i: nat): (r: nat)
    requires i <= |PARTITIONS|
    ensures i <= r <= |PARTITIONS|
    ensures r < |PARTITIONS| ==> EqualIgnoringCase(PARTITIONS[r].mountPoint, name)
    ensures forall j | i <= j < r :: !EqualIgnoringCase(PARTITIONS[j].mountPoint, name)
    decreases |PARTITIONS| - i
  {
    if i == |PARTITIONS| || EqualIgnoringCase(PARTITIONS[i].mountPoint, name) then i else DeviceFrom(name, i + 1)
  }

  /** Where a directory stack lives: its first name picks the device, the others are looked up there. */
  function Locate(stack: seq<string>, maxPathLen: nat): RealPath {
    if stack == [] then Real("")
    else
      var i := DeviceFrom(stack[0], 0);
      if i == |PARTITIONS| then Invalid(NoDevice)
      else
        var device := PARTITIONS[i].prefix + Join(stack[1..]);
        if |device| + 1 > maxPathLen then Invalid(NoEntry) else Real(device)
  }

  function Translate(cwd: string, path: string, maxPathLen: nat): RealPath {
    if ':' in path || Abspath(cwd, path, maxPathLen) == None then Invalid(NoEntry)
    else Locate(Walk(Joined(cwd, path)), maxPathLen)
  }

  /** The test that to_real_path makes on each table entry: `alias` is all of `v`, or is followed by a slash in it. */
  predicate Matches(alias: string, v: string) {
    || EqualIgnoringCase(alias, v)
    || (|alias| < |v| && EqualIgnoringCase(alias, v[..|alias|]) && v[|alias|] == '/')
  }

  lemma MatchIsName(mountPoint: string, name: string, tail: string)
    requires '/' !in mountPoint && '/' !in name && (tail == "" || tail[0] == '/')
    ensures Matches("/" + mountPoint, "/" + name + tail) <==> EqualIgnoringCase(mountPoint, name)
  {
    var alias, v := "/" + mountPoint, "/" + name + tail;
    if EqualIgnoringCase(mountPoint, name) {
      assert v[..|alias|] == "/" + name;
      assert LowerAll("/" + name) == LowerAll(alias) by { SlashLower(mountPoint, name); }
      if tail == "" { assert v == "/" + name; }
    }
    if Matches(alias, v) {
      var n := |alias|;
      if n == |v| {
        assert v[..n] == v;
      }
      assert LowerAll(alias) == LowerAll(v[..n]);
      forall k | 1 <= k < n
        ensures v[k] != '/'
      {
        assert LowerAll(v[..n])[k] == Lower(mountPoint[k - 1]);
      }
      assert n < |v| ==> v[n] == '/';
      assert tail != "" ==> v[|name| + 1] == tail[0];
      assert forall k | 1 <= k <= |name| :: v[k] == name[k - 1] && name[k - 1] in name;
      assert n == |name| + 1;
      assert v[..n] == "/" + name;
      SlashLower(mountPoint, name);
    }
  }

  lemma SlashLower(a: string, b: string)
    ensures EqualIgnoringCase("/" + a, "/" + b) <==> EqualIgnoringCase(a, b)
  {
    assert LowerAll("/" + a) == "/" + LowerAll(a);
    assert LowerAll("/" + b) == "/" + LowerAll(b);
    assert ("/" + LowerAll(a))[1..] == LowerAll(a);
    assert ("/" + LowerAll(b))[1..] == LowerAll(b);
  }

  /** The scan of the partition table: the index of the entry that `v` starts with, or |PARTITIONS|. */
  method FindEntry(v: string, ghost first: string, ghost names: seq<string>) returns (i: nat)
    requires v == "/" + first + Tail(names) && '/' !in first
    ensures i == DeviceFrom(first, 0)
    ensures i < |PARTITIONS| ==> |PARTITIONS[i].alias| == |first| + 1
  {
    i := 0;
    while i < |PARTITIONS|
      invariant i <= |PARTITIONS| && DeviceFrom(first, i) == DeviceFrom(first, 0)
    {
      NameFacts(i);
      MatchIsName(PARTITIONS[i].mountPoint, first, Tail(names));
      if Matches(PARTITIONS[i].alias, v) {
        return;
      }
      i := i + 1;
    }
  }

  method ToRealPath(cwd: string, path: string, maxPathLen: nat) returns (r: RealPath)
    requires IsAbsolute(cwd) && NUL !in cwd && NUL !in path
    ensures r == Translate(cwd, path, maxPathLen)
  {
    if ':' in path {
      return Invalid(NoEntry);
    }
    var abspath := VirtualAbspath(cwd, path, maxPathLen);
    if abspath == None {
      return Invalid(NoEntry);
    }
    WalkNames(Joined(cwd, path));
    r := RealOfNormalised(abspath.value, Walk(Joined(cwd, path)), maxPathLen);
  }

  method RealOfNormalised(v: string, ghost stack: seq<string>, maxPathLen: nat) returns (r: RealPath)
    requires AreNames(stack) && v == Render(stack)
    ensures r == Locate(stack, maxPathLen)
  {
    RootOrNamed(stack);
    if v == "/" {
      return Real("");
    }
    ghost var first, names := stack[0], stack[1..];
    var i := FindEntry(v, first, names);
    if i == |PARTITIONS| {
      return Invalid(NoDevice);
    }
    var rest := |PARTITIONS[i].alias|;
    if rest < |v| && v[rest] == '/' {
      rest := rest + 1;
    }
    RestIsJoin(first, names, rest);
    if |PARTITIONS[i].prefix| + |v[rest..]| + 1 > maxPathLen {
      return Invalid(NoEntry);
    }
    r := Real(PARTITIONS[i].prefix + v[rest..]);
  }

  lemma RootOrNamed(stack: seq<string>)
    requires AreNames(stack)
    ensures Render(stack) == "/" <==> stack == []
    ensures stack != [] ==> IsName(stack[0]) && Render(stack) == "/" + stack[0] + Tail(stack[1..])
  {
    if stack != [] {
      assert IsName(stack[0]);
      assert [stack[0]] + stack[1..] == stack;
      SpellFromLeft(stack[0], stack[1..]);
    }
  }

  lemma RestIsJoin(first: string, names: seq<string>, rest: nat)
    requires rest == |first| + 1 + if Tail(names) == "" then 0 else 1
    ensures ("/" + first + Tail(names))[rest..] == Join(names)
  {
  }

  // ---- What translation promises

  /** The name `name` is the one of table entry `i`. */
  predicate Names(i: nat, name: string) {
    i < |PARTITIONS| && EqualIgnoringCase(PARTITIONS[i].mountPoint, name)
  }

  /** When translation fails, and with what error, and what it gives when it does not. The first name picks the device,
      the others are looked up there, and the result has to fit in `maxPathLen` bytes. */
  lemma TranslateMeans(cwd: string, path: string, maxPathLen: nat)
    ensures var r, stack := Translate(cwd, path, maxPathLen), Walk(Joined(cwd, path));
            var valid := ':' !in path && (IsAbsolute(path) || |cwd + path| < maxPathLen);
      && (!valid ==> r == Invalid(NoEntry))
      && (valid && stack == [] ==> r == Real(""))
      && (valid && stack != [] && (forall i: nat :: !Names(i, stack[0])) ==> r == Invalid(NoDevice))
      && (forall i: nat | valid && stack != [] && Names(i, stack[0]) ::
            var device := PARTITIONS[i].mountPoint + ":/" + Join(stack[1..]);
            r == if |device| < maxPathLen then Real(device) else Invalid(NoEntry))
  {
    var stack := Walk(Joined(cwd, path));
    if stack != [] {
      var d := DeviceFrom(stack[0], 0);
      if d < |PARTITIONS| {
        assert Names(d, stack[0]);
        NameFacts(d);
      }
      forall i: nat | Names(i, stack[0])
        ensures i == d
      {
        SameName(i, d, stack[0]);
      }
    }
  }

  lemma SameName(i: nat, j: nat, name: string)
    requires Names(i, name) && Names(j, name)
    ensures i == j
  {
    NameFacts(i);
    NameFacts(j);
    NamesDistinct(i, j);
  }

  /** At most one table entry matches a normalised path, so the order of the table is irrelevant. */
  lemma OneMatch(stack: seq<string>, i: nat, j: nat)
    requires AreNames(stack) && i < |PARTITIONS| && j < |PARTITIONS|
    requires Matches(PARTITIONS[i].alias, Render(stack)) && Matches(PARTITIONS[j].alias, Render(stack))
    ensures i == j
  {
    NameFacts(i);
    NameFacts(j);
    if stack != [] {
      RootOrNamed(stack);
      MatchIsName(PARTITIONS[i].mountPoint, stack[0], Tail(stack[1..]));
      MatchIsName(PARTITIONS[j].mountPoint, stack[0], Tail(stack[1..]));
      NamesDistinct(i, j);
    }
  }

  /** Every real path is one table prefix and a remainder that is empty or a slash-separated list of names: no
      operation can be pointed above its device's root. It is as long as the virtual path (one more for a bare
      alias). */
  lemma RealPathShape(stack: seq<string>, maxPathLen: nat) returns (i: nat, rest: string)
    requires AreNames(stack) && stack != [] && Locate(stack, maxPathLen).Real?
    ensures i < |PARTITIONS| && Locate(stack, maxPathLen).path == PARTITIONS[i].prefix + rest
    ensures EqualIgnoringCase(PARTITIONS[i].mountPoint, stack[0])
    ensures rest == "" || AreNames(Components(rest))
    ensures |Locate(stack, maxPathLen).path| == |Render(stack)| + if |stack| == 1 then 1 else 0
    ensures |Locate(stack, maxPathLen).path| < maxPathLen
  {
    i, rest := DeviceFrom(stack[0], 0), Join(stack[1..]);
    NameFacts(i);
    RenderLength(stack);
    if |stack| > 1 {
      RestOfNames(stack[1..]);
    }
  }

  lemma RenderLength(stack: seq<string>)
    requires AreNames(stack) && stack != []
    ensures |Render(stack)| == |stack[0]| + 1 + if |stack| == 1 then 0 else |Join(stack[1..])| + 1
  {
    RootOrNamed(stack);
  }

  lemma RestOfNames(names: seq<string>)
    requires AreNames(names) && names != []
    ensures AreNames(Components(Join(names)))
  {
    ComponentsOfJoined(names);
  }

  function ColonAt(p: string): (k: nat)
    ensures k <= |p| && (k < |p| ==> p[k] == ':')
  {
    if p == "" || p[0] == ':' then 0 else 1 + ColonAt(p[1..])
  }

  lemma {:induction false} ColonAfter(name: string, rest: string)
    requires ':' !in name
    ensures ColonAt(name + ":" + rest) == |name|
  {
    if name != "" {
      assert name[0] in name;
      assert (name + ":" + rest)[1..] == name[1..] + ":" + rest;
      ColonAfter(name[1..], rest);
    }
  }

  /** The way back: "sd:/foo" to "/sd/foo". */
  function VirtualOf(p: string): string {
    var k := ColonAt(p);
    "/" + p[..k] + if k + 2 < |p| then "/" + p[k + 2..] else ""
  }

  lemma JoinOrTail(names: seq<string>)
    requires AreNames(names)
    ensures Tail(names) == if Join(names) == "" then "" else "/" + Join(names)
  {
    RootOrNamed(names);
  }

  lemma VirtualOfDevice(name: string, names: seq<string>)
    requires ':' !in name && AreNames(names)
    ensures VirtualOf(name + ":/" + Join(names)) == Render([name] + names)
  {
    VirtualOfSpelling(name, Join(names));
    SpellFromLeft(name, names);
    JoinOrTail(names);
  }

  lemma VirtualOfSpelling(name: string, rest: string)
    requires ':' !in name
    ensures VirtualOf(name + ":/" + rest) == "/" + name + if rest == "" then "" else "/" + rest
  {
    var p := name + ":/" + rest;
    ColonAfter(name, "/" + rest);
    assert p == name + ":" + ("/" + rest);
    assert p[|name| + 2..] == rest && p[..|name|] == name;
  }

  /** Translating back gives the normalised virtual path, with the alias in the table's own letter case. */
  lemma RealPathInverse(stack: seq<string>, maxPathLen: nat)
    requires AreNames(stack) && stack != [] && Locate(stack, maxPathLen).Real?
    ensures VirtualOf(Locate(stack, maxPathLen).path) == Render([LowerAll(stack[0])] + stack[1..])
  {
    var i := DeviceFrom(stack[0], 0);
    NameFacts(i);
    VirtualOfDevice(PARTITIONS[i].mountPoint, stack[1..]);
  }

  lemma LowerNames(stack: seq<string>)
    requires AreNames(stack) && stack != [] && DeviceFrom(stack[0], 0) < |PARTITIONS|
    ensures AreNames([LowerAll(stack[0])] + stack[1..])
  {
    NameFacts(DeviceFrom(stack[0], 0));
    assert '.' !in LowerAll(stack[0]);
    assert forall k | 0 <= k < |stack[1..]| :: IsName(stack[1..][k]);
  }

  /** Two stacks name the same device file exactly when they differ at most in the letter case of the alias. */
  lemma SameRealPath(s: seq<string>, t: seq<string>, maxPathLen: nat)
    requires AreNames(s) && AreNames(t) && s != [] && t != []
    requires Locate(s, maxPathLen).Real? && Locate(t, maxPathLen).Real?
    ensures Locate(s, maxPathLen) == Locate(t, maxPathLen) <==> EqualIgnoringCase(s[0], t[0]) && s[1..] == t[1..]
  {
    var s', t' := [LowerAll(s[0])] + s[1..], [LowerAll(t[0])] + t[1..];
    if Locate(s, maxPathLen) == Locate(t, maxPathLen) {
      RealPathInverse(s, maxPathLen);
      RealPathInverse(t, maxPathLen);
      LowerNames(s);
      LowerNames(t);
      RenderInjective(s', t');
      assert s'[0] == t'[0] && s'[1..] == t'[1..];
    }
  }

  // ---- Operations behind the translation

  /** with_virtual_path: the operation `f` runs only on a real path, never on the virtual root or an invalid path. */
  method WithVirtualPath<T>(cwd: string, f: string -> T, path: string, failed: T, maxPathLen: nat)
    returns (result: T, calledWith: Option<string>)
    requires IsAbsolute(cwd) && NUL !in cwd && NUL !in path
    ensures match Translate(cwd, path, maxPathLen)
            case Real(p) => if p != "" then calledWith == Some(p) && result == f(p) else calledWith == None && result == failed
            case Invalid(_) => calledWith == None && result == failed
  {
    var r := ToRealPath(cwd, path, maxPathLen);
    if r.Invalid? || r.path == "" {
      return failed, None;
    }
    return f(r.path), Some(r.path);
  }

  datatype Stat = Missing | Directory | Regular(size: nat)

  /** What `path` is, in a world where `fs` says what real paths are. */
  function StatOf(fs: string -> Stat, cwd: string, path: string, maxPathLen: nat): Stat {
    match Translate(cwd, path, maxPathLen)
    case Invalid(_) => Missing
    case Real(p) => if p == "" then Directory else fs(p)
  }

  method StatPath(fs: string -> Stat, cwd: string, path: string, maxPathLen: nat) returns (st: Stat)
    requires IsAbsolute(cwd) && NUL !in cwd && NUL !in path
    ensures st == StatOf(fs, cwd, path, maxPathLen)
  {
    var r := ToRealPath(cwd, path, maxPathLen);
    if r.Invalid? {
      return Missing;
    }
    if r.path == "" {
      return Directory;
    }
    var called;
    st, called := WithVirtualPath(cwd, fs, path, Missing, maxPathLen);
  }

  /** The working directory after a chdir, or None when it fails. */
  function NewCwd(fs: string -> Stat, cwd: string, path: string, maxPathLen: nat): Option<string> {
    if StatOf(fs, cwd, path, maxPathLen) == Directory then Some(Dir(Walk(Joined(cwd, path)))) else None
  }

  method Chdir(fs: string -> Stat, cwd: string, path: string, maxPathLen: nat) returns (ok: bool, cwd': string)
    requires IsAbsolute(cwd) && NUL !in cwd && NUL !in path
    ensures ok <==> NewCwd(fs, cwd, path, maxPathLen).Some?
    ensures var r := Translate(cwd, path, maxPathLen); ok <==> r.Real? && (r.path == "" || fs(r.path) == Directory)
    ensures cwd' == if ok then Dir(Walk(Joined(cwd, path))) else cwd
  {
    var st := StatPath(fs, cwd, path, maxPathLen);
    if st != Directory {
      return false, cwd;
    }
    var abspath := VirtualAbspath(cwd, path, maxPathLen);
    DirOfRender(Walk(Joined(cwd, path)));
    if abspath == None {
      return false, cwd;
    }
    cwd' := abspath.value;
    if |cwd'| > 1 {
      cwd' := cwd' + "/";
    }
    return true, cwd';
  }

  /** A chdir from `cwd` succeeds exactly when it should, and ends up in `cwd'`; behind one case. */
  ghost predicate Moves(fs: string -> Stat, cwd: string, path: string, maxPathLen: nat, ok: bool, cwd': string) {
    forall moved | moved == NewCwd(fs, cwd, path, maxPathLen) ::
      ok == moved.Some? && cwd' == if ok then moved.value else cwd
  }

  /** A working directory: the canonical spelling of a directory, with its final slash and no colon. */
  ghost predicate IsCwd(cwd: string) {
    (exists stack :: AreNames(stack) && cwd == Dir(stack)) && ':' !in cwd && NUL !in cwd
  }

  lemma RootIsCwd()
    ensures IsCwd("/")
  {
    assert AreNames([]) && Dir([]) == "/";
  }

  function RootCwd(): (r: string)
    ensures r == "/" && IsCwd(r)
  {
    RootIsCwd();
    "/"
  }

  type Cwd = s: string | IsCwd(s) witness RootCwd()

  lemma CwdIsAbsolute(cwd: string)
    requires IsCwd(cwd)
    ensures IsAbsolute(cwd) && NUL !in cwd && cwd[|cwd| - 1] == '/'
  {
  }

  lemma ChdirKeepsCwd(fs: string -> Stat, cwd: string, path: string, maxPathLen: nat)
    requires IsCwd(cwd) && NUL !in path && NewCwd(fs, cwd, path, maxPathLen).Some?
    ensures IsCwd(NewCwd(fs, cwd, path, maxPathLen).value)
  {
    var p := Joined(cwd, path);
    WalkNames(p);
    WalkChars(p, ':');
    WalkChars(p, NUL);
  }

  /** CDUP: from a directory below the root to the one above it, and from the root to the root. */
  lemma CdupGoesUp(fs: string -> Stat, stack: seq<string>, x: string, maxPathLen: nat)
    requires AreNames(stack + [x])
    ensures NewCwd(fs, Dir(stack + [x]), "..", maxPathLen).Some? ==> NewCwd(fs, Dir(stack + [x]), "..", maxPathLen).value == Dir(stack)
    ensures NewCwd(fs, "/", "..", maxPathLen).Some? ==> NewCwd(fs, "/", "..", maxPathLen).value == "/"
  {
    SpellPush(stack, x);
    WalkOfRender(stack + [x]);
    WalkMeans(Render(stack + [x]), "..");
    assert Dir(stack + [x]) + ".." == Render(stack + [x]) + "/" + "..";
    WalkOfNothing();
    WalkMeans("", "..");
    assert "/" + ".." == "" + "/" + "..";
  }

  lemma ColonInJoined(p1: string, p2: string)
    requires ':' !in p1
    ensures ':' in p1 + "/" + p2 <==> ':' in p2
  {
  }

  lemma SamePlace(cwd: string, path: string, cwd': string, path': string, maxPathLen: nat)
    requires Walk(Joined(cwd, path)) == Walk(Joined(cwd', path')) && (':' in path <==> ':' in path')
    requires Abspath(cwd, path, maxPathLen).Some? && Abspath(cwd', path', maxPathLen).Some?
    ensures Translate(cwd, path, maxPathLen) == Translate(cwd', path', maxPathLen)
  {
  }

  /** Changing into p1 and then p2 is changing into p1/p2, failures included, whenever both joined paths fit. */
  lemma ChdirComposes(fs: string -> Stat, cwd: string, p1: string, p2: string, maxPathLen: nat)
    requires p1 != "" && !IsAbsolute(p2)
    requires NewCwd(fs, cwd, p1, maxPathLen).Some?
    requires Abspath(cwd, p1 + "/" + p2, maxPathLen).Some?
    requires Abspath(NewCwd(fs, cwd, p1, maxPathLen).value, p2, maxPathLen).Some?
    ensures NewCwd(fs, NewCwd(fs, cwd, p1, maxPathLen).value, p2, maxPathLen)
         == NewCwd(fs, cwd, p1 + "/" + p2, maxPathLen)
  {
    JoinedTwice(cwd, p1, p2);
    WalkThroughDir(Joined(cwd, p1), p2);
    ColonInJoined(p1, p2);
    SamePlace(cwd, p1 + "/" + p2, Dir(Walk(Joined(cwd, p1))), p2, maxPathLen);
  }

  lemma JoinedTwice(cwd: string, p1: string, p2: string)
    requires p1 != ""
    ensures Joined(cwd, p1 + "/" + p2) == Joined(cwd, p1) + "/" + p2
  {
    if !IsAbsolute(p1) {
      assert cwd + (p1 + "/" + p2) == cwd + p1 + "/" + p2;
    }
  }
}

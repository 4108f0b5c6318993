/** Path normalization: an in-place edit of an output buffer, proved against a stack of path components.

    Strings are sequences of characters other than NUL; in a buffer they end at the first NUL. */
module Paths {
  import opened Common

  function Take(s: seq<char>, n: nat): (r: seq<char>)
    ensures r == if |s| <= n then s else s[..n]
  {
    if |s| <= n then s else s[..n]
  }

  /** The working directory as the start of a path: cut to 127 characters, with a slash where there is room. */
  function FromCwd(cwd: seq<char>): seq<char> {
    var c := Take(cwd, 127);
    if |c| > 1 && c[|c| - 1] != '/' && |c| < 127 then c + "/" else c
  }

  function Given(path: seq<char>): (r: seq<char>)
    ensures r != []
  {
    if path == [] then "." else path
  }

  /** The path that is taken apart: at most 127 characters. */
  function Joined(path: seq<char>, cwd: seq<char>): (r: seq<char>)
    ensures 1 <= |r| <= 127
  {
    var p := Given(path);
    var head := if p[0] == '/' then "/" else FromCwd(cwd);
    head + Take(p, 127 - |head|)
  }

  // ---------------------------------------------------------------- components

  predicate Part(s: seq<char>) {
    s != [] && '/' !in s
  }

  /** The length of the component at the start of s. */
  function PartLen(s: seq<char>): (n: nat)
    ensures n <= |s| && '/' !in s[..n] && (n < |s| ==> s[n] == '/')
  {
    if s == [] || s[0] == '/' then 0
    else
      assert s[..1 + PartLen(s[1..])] == [s[0]] + s[1..][..PartLen(s[1..])];
      1 + PartLen(s[1..])
  }

  /** The components of a path, empty ones dropped. */
  function Parts(s: seq<char>): (ps: seq<seq<char>>)
    ensures forall k | 0 <= k < |ps| :: Part(ps[k])
    decreases |s|
  {
    if s == [] then []
    else if s[0] == '/' then Parts(s[1..])
    else [s[..PartLen(s)]] + Parts(s[PartLen(s)..])
  }

  /** One component applied to the stack of components so far. */
  function Push(stack: seq<seq<char>>, part: seq<char>): seq<seq<char>> {
    if part == "." then stack
    else if part == ".." then (if stack == [] then [] else stack[..|stack| - 1])
    else stack + [part]
  }

  function Resolve(stack: seq<seq<char>>, parts: seq<seq<char>>): seq<seq<char>>
    decreases |parts|
  {
    if parts == [] then stack else Resolve(Push(stack, parts[0]), parts[1..])
  }

  function Body(stack: seq<seq<char>>): (r: seq<char>) {
    if stack == [] then [] else Body(stack[..|stack| - 1]) + "/" + stack[|stack| - 1]
  }

  function Render(stack: seq<seq<char>>): seq<char> {
    if stack == [] then "/" else Body(stack)
  }

  /** What normalization should produce. */
  function Normal(path: seq<char>): seq<char> {
    Render(Resolve([], Parts(path)))
  }

  /** Components of a normalized path. */
  ghost predicate Clean(stack: seq<seq<char>>) {
    forall k | 0 <= k < |stack| :: Part(stack[k]) && stack[k] != "." && stack[k] != ".."
  }

  lemma {:induction false} ResolveClean(stack: seq<seq<char>>, parts: seq<seq<char>>)
    requires Clean(stack) && forall k | 0 <= k < |parts| :: Part(parts[k])
    ensures Clean(Resolve(stack, parts))
    decreases |parts|
  {
    if parts != [] {
      ResolveClean(Push(stack, parts[0]), parts[1..]);
    }
  }

  // ---------------------------------------------------------------- normalizing twice

  lemma {:induction false} PartsPrefix(a: seq<char>, b: seq<char>)
    requires Part(a) && (b == [] || b[0] == '/')
    ensures PartLen(a + b) == |a| && Parts(a + b) == [a] + Parts(b)
  {
    PartLenPrefix(a, b);
    assert (a + b)[..|a|] == a && (a + b)[|a|..] == b;
  }

  lemma {:induction false} PartLenPrefix(a: seq<char>, b: seq<char>)
    requires '/' !in a && (b == [] || b[0] == '/')
    ensures PartLen(a + b) == |a|
  {
    if a != [] {
      assert (a + b)[1..] == a[1..] + b;
      PartLenPrefix(a[1..], b);
    } else {
      assert a + b == b;
    }
  }

  lemma BodyTail(stack: seq<seq<char>>, rest: seq<char>)
    requires stack != []
    ensures Body(stack) + rest == Body(stack[..|stack| - 1]) + ("/" + (stack[|stack| - 1] + rest))
  {
    Regrouped(Body(stack[..|stack| - 1]), "/", stack[|stack| - 1], rest);
  }

  lemma Regrouped(a: seq<char>, b: seq<char>, c: seq<char>, d: seq<char>)
    ensures a + b + c + d == a + (b + (c + d))
  {
  }

  lemma PartsSlash(s: seq<char>)
    ensures Parts("/" + s) == Parts(s)
  {
    assert ("/" + s)[1..] == s;
  }

  lemma SplitLast<T>(s: seq<T>, rest: seq<T>)
    requires s != []
    ensures s[..|s| - 1] + ([s[|s| - 1]] + rest) == s + rest
  {
  }

  /** Rendering and taking apart are inverse on clean components, whatever follows. */
  lemma {:induction false} PartsBody(stack: seq<seq<char>>, rest: seq<char>)
    requires Clean(stack) && (rest == [] || rest[0] == '/')
    ensures Parts(Body(stack) + rest) == stack + Parts(rest)
    decreases |stack|
  {
    if stack == [] {
      assert Body(stack) + rest == rest;
    } else {
      var last := stack[|stack| - 1];
      BodyTail(stack, rest);
      PartsBody(stack[..|stack| - 1], "/" + (last + rest));
      PartsSlash(last + rest);
      PartsPrefix(last, rest);
      SplitLast(stack, Parts(rest));
    }
  }

  lemma PartsRender(stack: seq<seq<char>>)
    requires Clean(stack)
    ensures Parts(Render(stack)) == stack
  {
    if stack != [] {
      PartsBody(stack, []);
      assert Body(stack) + [] == Body(stack);
      assert stack + Parts([]) == stack;
    } else {
      assert Render(stack)[1..] == [];
    }
  }

  lemma {:induction false} ResolveCleanIs(stack: seq<seq<char>>, parts: seq<seq<char>>)
    requires Clean(parts)
    ensures Resolve(stack, parts) == stack + parts
    decreases |parts|
  {
    if parts != [] {
      assert parts[0] != "." && parts[0] != "..";
      ResolveCleanIs(stack + [parts[0]], parts[1..]);
      assert stack + [parts[0]] + parts[1..] == stack + parts;
    }
  }

  /** A normalized path, with or without a slash in front, normalizes to itself. */
  lemma NormalTwice(path: seq<char>)
    ensures Normal("/" + Normal(path)) == Normal(path)
  {
    var stack := Resolve([], Parts(path));
    ResolveClean([], Parts(path));
    PartsRender(stack);
    assert ("/" + Render(stack))[1..] == Render(stack);
    assert Parts("/" + Render(stack)) == stack;
    ResolveCleanIs([], stack);
    assert [] + stack == stack;
  }

  lemma BodyStarts(stack: seq<seq<char>>)
    requires stack != []
    ensures Body(stack) != [] && Body(stack)[0] == '/'
  {
  }

  // ---------------------------------------------------------------- lengths

  lemma {:induction false} BodyPush(stack: seq<seq<char>>, part: seq<char>)
    ensures Body(stack + [part]) == Body(stack) + "/" + part
  {
    assert (stack + [part])[..|stack|] == stack;
  }

  lemma {:induction false} BodyPop(stack: seq<seq<char>>)
    requires stack != []
    ensures |Body(stack[..|stack| - 1])| < |Body(stack)|
  {
  }

  /** The rendered components never take more room than the characters they came from. */
  lemma {:induction false} ResolveShorter(stack: seq<seq<char>>, s: seq<char>, room: nat)
    requires |Body(stack)| <= room && (s == [] || s[0] == '/')
    ensures |Body(Resolve(stack, Parts(s)))| <= room + |s|
    decreases |s|
  {
    if s != [] {
      var t := s[1..];
      if t == [] || t[0] == '/' {
        ResolveShorter(stack, t, room);
      } else {
        var n := PartLen(t);
        assert Parts(t) == [t[..n]] + Parts(t[n..]);
        assert ([t[..n]] + Parts(t[n..]))[1..] == Parts(t[n..]);
        BodyPush(stack, t[..n]);
        if stack != [] {
          BodyPop(stack);
        }
        ResolveShorter(Push(stack, t[..n]), t[n..], room + 1 + n);
      }
    }
  }

  lemma NormalShorter(s: seq<char>)
    requires s != [] && s[0] == '/'
    ensures |Normal(s)| <= |s|
    ensures |s| >= 2 && s[1] == '/' ==> |Normal(s)| < |s|
  {
    ResolveShorter([], s, 0);
    if |s| >= 2 && s[1] == '/' {
      ResolveShorter([], s[1..], 0);
    }
  }

  // ---------------------------------------------------------------- what callers get

  /** The path or the working directory starts at the root. */
  predicate Absolute(path: seq<char>, cwd: seq<char>) {
    Given(path)[0] == '/' || (cwd != [] && cwd[0] == '/')
  }

  lemma AbsoluteJoined(path: seq<char>, cwd: seq<char>)
    requires Absolute(path, cwd)
    ensures Joined(path, cwd) != [] && Joined(path, cwd)[0] == '/'
  {
  }

  /** A canonical path: a slash before each component, no empty, "." or ".." component, no slash at the end. */
  lemma NormalCanonical(path: seq<char>, cwd: seq<char>)
    requires Absolute(path, cwd)
    ensures var out := Normal(Joined(path, cwd));
            && 1 <= |out| <= 127 && out[0] == '/' && Clean(Parts(out)) && out == Render(Parts(out))
            && (out[|out| - 1] == '/' ==> out == "/")
  {
    AbsoluteJoined(path, cwd);
    NormalShorter(Joined(path, cwd));
    var stack := Resolve([], Parts(Joined(path, cwd)));
    ResolveClean([], Parts(Joined(path, cwd)));
    PartsRender(stack);
    if stack != [] {
      BodyStarts(stack);
      LastOfPart(Body(stack[..|stack| - 1]) + "/", stack[|stack| - 1], false);
    }
  }

  /** Normalization of a result that has room to spare is the identity; a result of the full 127 characters loses its
      last one, because joining puts a slash in front before it cuts. */
  lemma NormalizeIdempotent(path: seq<char>, cwd: seq<char>, cwd2: seq<char>)
    requires Absolute(path, cwd)
    ensures var out := Normal(Joined(path, cwd));
            Normal(Joined(out, cwd2)) == out <==> |out| < 127
  {
    AbsoluteJoined(path, cwd);
    NormalShorter(Joined(path, cwd));
    var out := Normal(Joined(path, cwd));
    var stack := Resolve([], Parts(Joined(path, cwd)));
    if stack != [] {
      BodyStarts(stack);
    }
    assert out != [] && out[0] == '/';
    if |out| < 127 {
      assert Joined(out, cwd2) == "/" + out;
      NormalTwice(Joined(path, cwd));
    } else {
      assert Joined(out, cwd2) == "/" + out[..126];
      NormalShorter(Joined(out, cwd2));
    }
  }

  /** Such a result exists: 126 letters below the root. */
  lemma FullLength(path: seq<char>)
    requires |path| == 126 && forall k | 0 <= k < 126 :: path[k] == 'a'
    ensures |Normal(Joined(path, "/"))| == 127
            && Normal(Joined(Normal(Joined(path, "/")), "/")) != Normal(Joined(path, "/"))
  {
    assert Joined(path, "/") == "/" + path;
    assert ("/" + path)[1..] == path && path + [] == path;
    PartsPrefix(path, []);
    assert Parts("/" + path) == [path];
    assert Resolve([], [path]) == [path];
    assert Body([path]) == "/" + path;
    NormalizeIdempotent(path, "/", "/");
  }

  // ---------------------------------------------------------------- the in-place edit

  /** What the output buffer shows for a stack of components; going up leaves a slash at the end. */
  function Shown(stack: seq<seq<char>>, slash: bool): seq<char> {
    if stack == [] then "/" else Body(stack) + (if slash then "/" else [])
  }

  /** The position from which the rest of the path is still to be resolved. */
  ghost predicate At(tmp: seq<char>, p: nat, stack: seq<seq<char>>) {
    && p <= |tmp| && (p < |tmp| && p > 0 ==> tmp[p] == '/')
    && Resolve(stack, Parts(tmp[p..])) == Resolve([], Parts(tmp))
  }

  lemma SkipSlash(tmp: seq<char>, p: nat)
    requires p < |tmp| && tmp[p] == '/'
    ensures Parts(tmp[p..]) == Parts(tmp[p + 1..])
  {
    assert tmp[p..][1..] == tmp[p + 1..];
  }

  lemma NextPart(tmp: seq<char>, p: nat, e: nat)
    requires p < e <= |tmp| && '/' !in tmp[p..e] && (e < |tmp| ==> tmp[e] == '/')
    ensures Part(tmp[p..e]) && Parts(tmp[p..]) == [tmp[p..e]] + Parts(tmp[e..])
  {
    assert tmp[p..] == tmp[p..e] + tmp[e..];
    PartsPrefix(tmp[p..e], tmp[e..]);
  }

  lemma PushFirst(stack: seq<seq<char>>, part: seq<char>, rest: seq<seq<char>>)
    ensures Resolve(stack, [part] + rest) == Resolve(Push(stack, part), rest)
  {
    assert ([part] + rest)[1..] == rest;
  }

  /** Build the joined path character by character. */
  method Join(path: seq<char>, cwd: Option<seq<char>>) returns (ok: bool, tmp: seq<char>)
    ensures ok <==> Given(path)[0] == '/' || cwd.Some?
    ensures ok ==> tmp == Joined(path, if cwd.Some? then cwd.value else [])
  {
    var given := Given(path);
    tmp := [];
    if given[0] == '/' {
      tmp := "/";
    } else {
      if cwd.None? {
        return false, tmp;
      }
      var c, i := cwd.value, 0;
      while i < |c| && |tmp| < 127
        invariant i <= |c| && tmp == c[..i] && |tmp| <= 127
      {
        tmp := tmp + [c[i]];
        i := i + 1;
      }
      assert tmp == Take(c, 127);
      if |tmp| > 1 && tmp[|tmp| - 1] != '/' && |tmp| < 127 {
        tmp := tmp + "/";
      }
    }
    ghost var head := tmp;
    var i := 0;
    while i < |given| && |tmp| < 127
      invariant i <= |given| && tmp == head + given[..i] && |tmp| <= 127
    {
      tmp := tmp + [given[i]];
      i := i + 1;
    }
    assert given[..i] == Take(given, 127 - |head|);
    ok := true;
  }

  /** Going up: drop the last component, and leave the slash in front of it unless only the root is left. */
  method GoUp(out: array<char>, n: nat, ghost stack: seq<seq<char>>, ghost slash: bool) returns (len: nat)
    requires 1 <= n < out.Length && Clean(stack) && (slash ==> stack != []) && out[..n] == Shown(stack, slash)
    requires out[n] == '\0'
    modifies out
    ensures 1 <= len <= n && out[len] == '\0'
    ensures out[..len] == if |stack| <= 1 then "/" else Body(stack[..|stack| - 1]) + "/"
  {
    len := n;
    if len > 1 {
      UpFrom(stack, slash);
      ghost var shown := out[..n];
      ghost var last := stack[|stack| - 1];
      ghost var rest := Body(stack[..|stack| - 1]) + "/";
      assert shown == rest + last + if slash then "/" else [];
      if out[len - 1] == '/' {
        LastOfPart(rest, last, slash);
        len := len - 1;
      } else {
        LastOfPart(rest, last, slash);
      }
      assert len == |rest| + |last|;
      while len > 1 && out[len - 1] != '/'
        invariant |rest| <= len <= |rest| + |last|
        decreases len
      {
        assert shown[len - 1] == out[len - 1];
        len := len - 1;
      }
      UpTo(shown, rest, last, len);
      out[len] := '\0';
    }
  }

  lemma UpFrom(stack: seq<seq<char>>, slash: bool)
    requires Clean(stack) && |Shown(stack, slash)| > 1
    ensures stack != []
  {
  }

  lemma LastOfPart(rest: seq<char>, last: seq<char>, slash: bool)
    requires Part(last)
    ensures var s := rest + last + if slash then "/" else []; s != [] && (s[|s| - 1] == '/' <==> slash)
  {
    assert last[|last| - 1] in last;
  }

  lemma UpTo(s: seq<char>, rest: seq<char>, last: seq<char>, len: nat)
    requires rest != [] && rest[|rest| - 1] == '/' && Part(last) && |rest| <= len <= |rest| + |last| <= |s|
    requires s[..|rest| + |last|] == rest + last && (len == 1 || s[len - 1] == '/')
    ensures len == |rest|
  {
    forall k | |rest| <= k < |rest| + |last| ensures s[k] != '/' {
      assert s[..|rest| + |last|][k] == last[k - |rest|];
      assert last[k - |rest|] in last;
    }
  }

  /** Append one component, with a slash in front where there is none yet; fails when the buffer is too small. */
  method PushPart(out: array<char>, n: nat, part: seq<char>, ghost stack: seq<seq<char>>, ghost slash: bool)
    returns (ok: bool, len: nat)
    requires 1 <= n < out.Length && Clean(stack) && (slash ==> stack != []) && out[..n] == Shown(stack, slash)
    requires Part(part)
    modifies out
    ensures ok ==> n <= len < out.Length && out[..len] == Shown(stack + [part], false) && out[len] == '\0'
    ensures ok <==> n + (if n > 1 && !slash then 1 else 0) + |part| < out.Length
  {
    len := n;
    ShownLast(stack, slash);
    BodyPush(stack, part);
    if len > 1 && out[len - 1] != '/' {
      if len >= out.Length - 1 {
        return false, len;
      }
      out[len] := '/';
      len := len + 1;
    }
    ghost var start := len;
    assert out[..start] == Body(stack) + "/";
    for i := 0 to |part|
      invariant start + i == len < out.Length && out[..len] == Body(stack) + "/" + part[..i]
    {
      if len >= out.Length - 1 {
        return false, len;
      }
      out[len] := part[i];
      len := len + 1;
    }
    out[len] := '\0';
    ok := true;
  }

  lemma ShownLast(stack: seq<seq<char>>, slash: bool)
    requires Clean(stack) && (slash ==> stack != [])
    ensures var s := Shown(stack, slash);
            s != [] && (|s| == 1 <==> stack == []) && (s[|s| - 1] == '/' <==> |s| == 1 || slash)
  {
    if stack != [] {
      BodyStarts(stack);
      LastOfPart(Body(stack[..|stack| - 1]) + "/", stack[|stack| - 1], slash);
    }
  }

  /** Where the loop is: p characters have been dealt with, and the buffer shows the stack they lead to. */
  ghost predicate Progress(tmp: seq<char>, p: nat, stack: seq<seq<char>>, slash: bool, shown: seq<char>) {
    && tmp != [] && At(tmp, p, stack) && Clean(stack) && (slash ==> stack != []) && shown == Shown(stack, slash)
    && (tmp[0] == '/' ==> |shown| <= if p == 0 then 1 else p)
  }

  lemma Begin(tmp: seq<char>)
    requires tmp != []
    ensures Progress(tmp, 0, [], false, "/")
  {
    assert tmp[0..] == tmp;
  }

  /** How much room the buffer needs after one more component. */
  lemma AdvanceRoom(stack: seq<seq<char>>, slash: bool, part: seq<char>, slash': bool)
    requires Clean(stack) && Part(part) && (slash ==> stack != [])
    requires slash' == NextSlash(stack, slash, part)
    ensures |Shown(Push(stack, part), slash')| <= |Shown(stack, slash)| + |part|
            + if stack != [] && !slash then 1 else 0
  {
    BodyPush(stack, part);
    if stack != [] {
      BodyPop(stack);
      ShownLast(stack, slash);
    }
  }

  lemma AdvanceAt(tmp: seq<char>, p: nat, start: nat, e: nat, stack: seq<seq<char>>)
    requires At(tmp, p, stack) && p <= start < e <= |tmp| && Parts(tmp[start..]) == Parts(tmp[p..])
    requires '/' !in tmp[start..e] && (e < |tmp| ==> tmp[e] == '/')
    ensures Part(tmp[start..e]) && At(tmp, e, Push(stack, tmp[start..e]))
  {
    NextPart(tmp, start, e);
    PushFirst(stack, tmp[start..e], Parts(tmp[e..]));
  }

  lemma PushClean(stack: seq<seq<char>>, part: seq<char>)
    requires Clean(stack) && Part(part)
    ensures Clean(Push(stack, part))
  {
  }

  /** What applying the component between start and e does. */
  lemma Advance(tmp: seq<char>, p: nat, start: nat, e: nat, stack: seq<seq<char>>, slash: bool, shown: seq<char>,
                slash': bool)
    requires Progress(tmp, p, stack, slash, shown) && p <= start < e <= |tmp|
    requires Parts(tmp[start..]) == Parts(tmp[p..]) && (start == p ==> p == 0 && tmp[0] != '/')
    requires '/' !in tmp[start..e] && (e < |tmp| ==> tmp[e] == '/')
    requires slash' == NextSlash(stack, slash, tmp[start..e])
    ensures Part(tmp[start..e])
    ensures var stack' := Push(stack, tmp[start..e]); Progress(tmp, e, stack', slash', Shown(stack', slash'))
    ensures tmp[0] == '/' ==> |shown| + (if |shown| > 1 && !slash then 1 else 0) + (e - start) <= e
  {
    AdvanceAt(tmp, p, start, e, stack);
    PushClean(stack, tmp[start..e]);
    AdvanceRoom(stack, slash, tmp[start..e], slash');
    ShownLast(stack, slash);
  }

  lemma Finish(tmp: seq<char>, p: nat, stack: seq<seq<char>>, slash: bool, shown: seq<char>)
    requires Progress(tmp, p, stack, slash, shown) && Parts(tmp[p..]) == []
    ensures Normal(tmp) == if |shown| > 1 && shown[|shown| - 1] == '/' then shown[..|shown| - 1] else shown
  {
    ShownLast(stack, slash);
  }

  /** Normalize a path in the buffer.  On success the first `len` characters, ended by a NUL, are the rendered stack of
      components.  It succeeds whenever the joined path starts at the root and is shorter than the buffer, so always
      for a buffer of 128 characters and an absolute working directory. */
  method NormalizePath(path: seq<char>, cwd: Option<seq<char>>, out: array<char>) returns (ret: int, ghost len: nat)
    requires out.Length >= 2
    modifies out
    ensures ret == 0 || ret == -1
    ensures ret == 0 ==> Given(path)[0] == '/' || cwd.Some?
    ensures ret == 0 ==> var tmp := Joined(path, if cwd.Some? then cwd.value else []);
              len < out.Length && out[..len] == Normal(tmp) && out[len] == '\0'
    ensures (Given(path)[0] == '/' || cwd.Some?) ==> var tmp := Joined(path, if cwd.Some? then cwd.value else []);
              tmp[0] == '/' && |tmp| < out.Length ==> ret == 0
  {
    var ok, tmp := Join(path, cwd);
    len := 1;
    if !ok {
      return -1, len;
    }
    ret, len := Edit(tmp, out);
  }

  /** The loop over the components of the joined path. */
  method Edit(tmp: seq<char>, out: array<char>) returns (ret: int, ghost len: nat)
    requires out.Length >= 2 && tmp != []
    modifies out
    ensures ret == 0 || ret == -1
    ensures ret == 0 ==> len < out.Length && out[..len] == Normal(tmp) && out[len] == '\0'
    ensures tmp[0] == '/' && |tmp| < out.Length ==> ret == 0
  {
    len := 1;
    var n, p := 1, 0;
    ghost var stack: seq<seq<char>>, slash, shown := [], false, "/";
    out[0] := '/';
    out[1] := '\0';
    Begin(tmp);
    while p < |tmp|
      invariant 1 <= n < out.Length && out[n] == '\0' && out[..n] == shown && Progress(tmp, p, stack, slash, shown)
      decreases |tmp| - p
    {
      var start := SkipSlashes(tmp, p);
      if start == |tmp| {
        break;
      }
      var e := PartEnd(tmp, start);
      ghost var next := NextSlash(stack, slash, tmp[start..e]);
      Advance(tmp, p, start, e, stack, slash, shown, next);
      var ok;
      ok, n := Apply(out, n, tmp[start..e], stack, slash);
      if !ok {
        return -1, len;
      }
      p, stack, slash := e, Push(stack, tmp[start..e]), next;
      shown := Shown(stack, slash);
    }
    Finish(tmp, p, stack, slash, shown);
    if n > 1 && out[n - 1] == '/' {
      n := n - 1;
      out[n] := '\0';
    }
    len := n;
    ret := 0;
  }

  /** Does the buffer end in a slash after this component? */
  function NextSlash(stack: seq<seq<char>>, slash: bool, part: seq<char>): bool {
    if part == "." then slash else part == ".." && Push(stack, part) != []
  }

  /** Apply one component to the buffer. */
  method Apply(out: array<char>, n: nat, part: seq<char>, ghost stack: seq<seq<char>>, ghost slash: bool)
    returns (ok: bool, len: nat)
    requires 1 <= n < out.Length && Clean(stack) && (slash ==> stack != []) && out[..n] == Shown(stack, slash)
    requires out[n] == '\0' && Part(part)
    modifies out
    ensures ok ==> 1 <= len < out.Length && out[..len] == Shown(Push(stack, part), NextSlash(stack, slash, part))
                   && out[len] == '\0'
    ensures n + (if n > 1 && !slash then 1 else 0) + |part| < out.Length ==> ok
  {
    if part == "." {
      return true, n;
    } else if part == ".." {
      len := GoUp(out, n, stack, slash);
      ok := true;
    } else {
      ok, len := PushPart(out, n, part, stack, slash);
    }
  }

  method SkipSlashes(tmp: seq<char>, p: nat) returns (start: nat)
    requires p <= |tmp|
    ensures p <= start <= |tmp| && Parts(tmp[start..]) == Parts(tmp[p..]) && (start < |tmp| ==> tmp[start] != '/')
    ensures start > p ==> tmp[p] == '/'
  {
    start := p;
    while start < |tmp| && tmp[start] == '/'
      invariant p <= start <= |tmp| && Parts(tmp[start..]) == Parts(tmp[p..])
      invariant start > p ==> tmp[p] == '/'
    {
      SkipSlash(tmp, start);
      start := start + 1;
    }
  }

  method PartEnd(tmp: seq<char>, start: nat) returns (e: nat)
    requires start < |tmp| && tmp[start] != '/'
    ensures start < e <= |tmp| && '/' !in tmp[start..e] && (e < |tmp| ==> tmp[e] == '/')
  {
    e := start;
    while e < |tmp| && tmp[e] != '/'
      invariant start <= e <= |tmp| && '/' !in tmp[start..e]
    {
      e := e + 1;
    }
  }
}

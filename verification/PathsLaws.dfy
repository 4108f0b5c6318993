/** The laws of path normalization, said over paths: they determine its result for every path. */
module PathsLaws {
  import opened Common
  import opened Paths

  // ---------------------------------------------------------------- taking paths apart

  /** A slash separates components. */
  lemma {:induction false} PartsAppend(p: seq<char>, q: seq<char>)
    ensures Parts(p + "/" + q) == Parts(p) + Parts(q)
    decreases |p|
  {
    if p == [] {
      assert p + "/" + q == "/" + q;
      PartsSlash(q);
    } else if p[0] == '/' {
      assert (p + "/" + q)[1..] == p[1..] + "/" + q;
      PartsAppend(p[1..], q);
    } else {
      var n := PartLen(p);
      var a, rest := p[..n], p[n..];
      PartLenSome(p);
      assert p == a + rest;
      PartsAppend(rest, q);
      FirstPart(p, q, a, rest);
    }
  }

  lemma PartLenSome(p: seq<char>)
    requires p != [] && p[0] != '/'
    ensures 0 < PartLen(p) <= |p| && Part(p[..PartLen(p)])
    ensures p[PartLen(p)..] == [] || p[PartLen(p)..][0] == '/'
  {
  }

  lemma FirstPart(p: seq<char>, q: seq<char>, a: seq<char>, rest: seq<char>)
    requires p == a + rest && Part(a) && (rest == [] || rest[0] == '/')
    requires Parts(rest + "/" + q) == Parts(rest) + Parts(q)
    ensures Parts(p + "/" + q) == Parts(p) + Parts(q)
  {
    assert p + "/" + q == a + (rest + "/" + q);
    PartsPrefix(a, rest + "/" + q);
    PartsPrefix(a, rest);
    Three([a], Parts(rest), Parts(q));
  }

  lemma Three(a: seq<seq<char>>, b: seq<seq<char>>, c: seq<seq<char>>)
    ensures a + (b + c) == a + b + c
  {
  }

  lemma {:induction false} ResolveAppend(stack: seq<seq<char>>, a: seq<seq<char>>, b: seq<seq<char>>)
    ensures Resolve(stack, a + b) == Resolve(Resolve(stack, a), b)
    decreases |a|
  {
    if a == [] {
      assert a + b == b;
    } else {
      assert (a + b)[0] == a[0] && (a + b)[1..] == a[1..] + b;
      ResolveAppend(Push(stack, a[0]), a[1..], b);
    }
  }

  lemma OnePart(a: seq<char>)
    requires Part(a)
    ensures Parts(a) == [a]
  {
    PartsPrefix(a, []);
    assert a + [] == a;
  }

  /** Where a path leads: the components from the root. */
  function Place(p: seq<char>): seq<seq<char>> {
    Resolve([], Parts(p))
  }

  lemma PlaceAppend(p: seq<char>, q: seq<char>)
    ensures Place(p + "/" + q) == Resolve(Place(p), Parts(q))
  {
    PartsAppend(p, q);
    ResolveAppend([], Parts(p), Parts(q));
  }

  lemma PlaceStep(p: seq<char>, a: seq<char>)
    requires Part(a)
    ensures Place(p + "/" + a) == Push(Place(p), a)
  {
    PlaceAppend(p, a);
    OnePart(a);
    assert Resolve(Place(p), [a]) == Push(Place(p), a);
  }

  /** A name of something in a directory, as opposed to "." and "..". */
  predicate Name(a: seq<char>) {
    Part(a) && a != "." && a != ".."
  }

  // ---------------------------------------------------------------- the laws

  /** Going into something and up again leads back. */
  lemma UpCancels(p: seq<char>, a: seq<char>)
    requires Name(a)
    ensures Normal(p + "/" + a + "/..") == Normal(p)
  {
    PlaceStep(p, a);
    PlaceStep(p + "/" + a, "..");
    assert p + "/" + a + "/.." == p + "/" + a + "/" + "..";
    assert (Place(p) + [a])[..|Place(p)|] == Place(p);
  }

  /** The root is its own parent. */
  lemma RootUp(p: seq<char>)
    requires Normal(p) == "/"
    ensures Normal(p + "/..") == "/"
  {
    PlaceStep(p, "..");
    assert p + "/.." == p + "/" + "..";
    OnlyRoot(p);
  }

  lemma OnlyRoot(p: seq<char>)
    ensures Normal(p) == "/" <==> Place(p) == []
  {
    ResolveClean([], Parts(p));
    if Place(p) != [] {
      var last := Place(p)[|Place(p)| - 1];
      LastOfPart(Body(Place(p)[..|Place(p)| - 1]) + "/", last, false);
    }
  }

  lemma Root()
    ensures Normal("/") == "/" && Normal("") == "/"
  {
    assert "/"[1..] == [];
  }

  /** A name is put at the end. */
  lemma NameAppended(p: seq<char>, a: seq<char>)
    requires Name(a)
    ensures Normal(p + "/" + a) == (if Normal(p) == "/" then "/" + a else Normal(p) + "/" + a)
  {
    PlaceStep(p, a);
    BodyPush(Place(p), a);
    OnlyRoot(p);
    if Place(p) == [] {
      assert Body([]) + "/" + a == "/" + a;
    }
  }

  /** A dot changes nothing, nor does a slash at the end or one more in between. */
  lemma DotDropped(p: seq<char>)
    ensures Normal(p + "/.") == Normal(p) && Normal(p + "/") == Normal(p)
  {
    PlaceStep(p, ".");
    assert p + "/." == p + "/" + ".";
    PlaceAppend(p, "");
    assert p + "/" + "" == p + "/";
  }

  lemma SlashesMerge(p: seq<char>, q: seq<char>)
    ensures Normal(p + "//" + q) == Normal(p + "/" + q)
  {
    PlaceAppend(p, "/" + q);
    PlaceAppend(p, q);
    PartsSlash(q);
    assert p + "/" + ("/" + q) == p + "//" + q;
  }

  /** What comes after depends on what comes before only through its normal form. */
  lemma NormalFirst(p: seq<char>, q: seq<char>)
    ensures Normal(Normal(p) + "/" + q) == Normal(p + "/" + q)
  {
    PlaceAppend(p, q);
    PlaceAppend(Normal(p), q);
    ResolveClean([], Parts(p));
    PartsRender(Place(p));
    ResolveCleanIs([], Place(p));
    assert [] + Place(p) == Place(p);
  }

  /** Whatever follows, going into something and up again makes no difference: /a/b/../c is /a/c. */
  lemma UpThenOn(p: seq<char>, a: seq<char>, q: seq<char>)
    requires Name(a)
    ensures Normal(p + "/" + a + "/.." + "/" + q) == Normal(p + "/" + q)
  {
    UpCancels(p, a);
    NormalFirst(p + "/" + a + "/..", q);
    NormalFirst(p, q);
  }

  /** The parent of a path is its normal form without the last name. */
  lemma ParentOf(p: seq<char>) returns (q: seq<char>, a: seq<char>)
    requires Normal(p) != "/"
    ensures Name(a) && Normal(p) == (if q == "/" then "/" + a else q + "/" + a) && Normal(p + "/..") == q == Normal(q)
  {
    var stack := Place(p);
    ResolveClean([], Parts(p));
    var up := stack[..|stack| - 1];
    a := stack[|stack| - 1];
    q := Render(up);
    assert stack == up + [a];
    BodyPush(up, a);
    PlaceStep(p, "..");
    assert p + "/.." == p + "/" + "..";
    PartsRender(up);
    ResolveCleanIs([], up);
    assert [] + up == up;
    if up != [] {
      LastOfPart(Body(up[..|up| - 1]) + "/", up[|up| - 1], false);
    } else {
      assert Body([]) + "/" + a == "/" + a;
    }
  }

  // ---------------------------------------------------------------- relative paths

  /** A path from the root is taken as it is, any other after the working directory; 127 characters of that count. */
  lemma JoinedIs(path: seq<char>, cwd: seq<char>)
    requires cwd != [] && cwd[0] == '/'
    ensures var p := Given(path);
            Joined(path, cwd) == Take(if p[0] == '/' then "/" + p
                                      else if cwd[|cwd| - 1] == '/' then cwd + p else cwd + "/" + p, 127)
  {
    var p := Given(path);
    if p[0] == '/' {
      Cut("/", p, 127);
    } else if |cwd| < 127 {
      var head := FromCwd(cwd);
      assert head == if cwd[|cwd| - 1] == '/' then cwd else cwd + "/";
      Cut(head, p, 127);
    } else {
      CutFirst(cwd, (if cwd[|cwd| - 1] == '/' then [] else "/") + p, 127);
      assert cwd + ([] + p) == cwd + p && cwd + ("/" + p) == cwd + "/" + p;
    }
  }

  lemma Cut(head: seq<char>, p: seq<char>, n: nat)
    requires |head| <= n
    ensures head + Take(p, n - |head|) == Take(head + p, n)
  {
  }

  lemma CutFirst(head: seq<char>, p: seq<char>, n: nat)
    requires |head| >= n
    ensures Take(head, n) + Take(p, 0) == Take(head + p, n)
  {
  }

  /** A relative path leads where the working directory followed by it leads. */
  lemma RelativeFromCwd(path: seq<char>, cwd: seq<char>)
    requires cwd != [] && cwd[0] == '/' && path != [] && path[0] != '/' && |cwd| + 1 + |path| <= 127
    ensures Normal(Joined(path, cwd)) == Normal(cwd + "/" + path)
  {
    JoinedIs(path, cwd);
    if cwd[|cwd| - 1] == '/' {
      var c := cwd[..|cwd| - 1];
      assert cwd == c + "/";
      SlashesMerge(c, path);
      assert cwd + path == c + "/" + path && cwd + "/" + path == c + "//" + path;
    }
  }

  lemma AbsoluteAsIs(path: seq<char>, cwd: seq<char>)
    requires cwd != [] && cwd[0] == '/' && path != [] && path[0] == '/' && |path| <= 126
    ensures Normal(Joined(path, cwd)) == Normal(path)
  {
    JoinedIs(path, cwd);
    PartsSlash(path);
  }

  /** The empty path is the working directory. */
  lemma EmptyIsCwd(cwd: seq<char>)
    requires cwd != [] && cwd[0] == '/' && |cwd| <= 125
    ensures Normal(Joined("", cwd)) == Normal(cwd)
  {
    RelativeFromCwd(".", cwd);
    DotDropped(cwd);
    assert cwd + "/." == cwd + "/" + ".";
  }
}

/** The directory graph of an image and the depth-first walk the checker makes over it. */
module MiniFsTree {
  import opened Common
  import opened MiniFs

  /** A directory graph: kids[i] lists the inodes that the entries of directory i name, in order, or is None when the
      directory cannot be read. */
  datatype Tree = Tree(inodes: seq<Inode>, kids: seq<Option<seq<int>>>)
  {
    /** What parsing a directory has already checked about each of its entries. */
    ghost predicate Consistent() {
      && |inodes| == INODES && |kids| == INODES
      && forall i, j :: 0 <= i < INODES && kids[i].Some? && 0 <= j < |kids[i].value| ==> GoodKid(i, kids[i].value[j])
    }

    ghost predicate GoodKid(i: int, c: int)
      requires |inodes| == INODES
    {
      0 < c < INODES && inodes[c].used != 0 && inodes[c].parent == i
    }
  }

  predicate IsIno(i: int) {
    0 <= i < INODES
  }

  ghost function AllInodes(): set<int> {
    set i | 0 <= i < INODES && IsIno(i)
  }

  /** The recursive walk: None when it fails, otherwise the set of inodes it marked reachable. */
  ghost function Walk(t: Tree, ino: int, stack: set<int>): Option<set<int>>
    requires t.Consistent() && 0 <= ino < INODES && stack <= AllInodes()
    decreases AllInodes() - stack, 1, 0
  {
    if ino in stack || t.kids[ino].None? then None
    else
      assert ino in AllInodes() - stack;
      WalkKids(t, ino, |t.kids[ino].value|, stack + {ino})
  }

  /** The walk after it has handled the first n entries of directory ino. */
  ghost function WalkKids(t: Tree, ino: int, n: nat, stack: set<int>): Option<set<int>>
    requires t.Consistent() && 0 <= ino < INODES && t.kids[ino].Some? && n <= |t.kids[ino].value|
    requires stack <= AllInodes()
    decreases AllInodes() - stack, 2, n
  {
    if n == 0 then Some({ino})
    else
      var c := t.kids[ino].value[n - 1];
      match WalkKids(t, ino, n - 1, stack)
      case None => None
      case Some(r) =>
        if t.inodes[c].typ != DIR then Some(r + {c})
        else if Walk(t, c, stack).None? then None
        else Some(r + Walk(t, c, stack).value)
  }

  // ---------------------------------------------------------------- the declarative view

  /** Climbing exactly k parent links from x, never from the root, arrives at a. */
  ghost predicate Below(t: Tree, x: int, a: int, k: nat)
    requires |t.inodes| == INODES
    decreases k
  {
    if k == 0 then x == a
    else 0 <= x < INODES && x != ROOT && Below(t, t.inodes[x].parent, a, k - 1)
  }

  ghost predicate Readable(t: Tree)
    requires t.Consistent()
  {
    forall i :: 0 <= i < INODES && t.inodes[i].used != 0 && t.inodes[i].typ == DIR ==> t.kids[i].Some?
  }

  /** Inode i is the root, or its parent is a directory in use that lists it and whose chain of parents leads up to
      the root. */
  ghost predicate Hangs(t: Tree, i: int)
    requires t.Consistent() && 0 <= i < INODES
  {
    && (exists k: nat :: Below(t, i, ROOT, k))
    && (i != ROOT ==>
          var p := t.inodes[i].parent;
          && 0 <= p < INODES && t.inodes[p].used != 0 && t.inodes[p].typ == DIR
          && t.kids[p].Some? && i in t.kids[p].value)
  }

  /** Every directory can be read, the root is nobody's entry, and every inode in use hangs off the root. */
  ghost predicate TreeOk(t: Tree)
    requires t.Consistent()
  {
    && Readable(t)
    && (forall i :: 0 <= i < INODES && t.inodes[i].used != 0 && t.kids[i].Some? ==> ROOT !in t.kids[i].value)
    && (forall i :: 0 <= i < INODES && t.inodes[i].used != 0 ==> Hangs(t, i))
  }

  ghost predicate RootOk(t: Tree)
    requires t.Consistent()
  {
    var r := t.inodes[ROOT];
    r.used != 0 && r.typ == DIR && r.parent == ROOT
  }

  /** Only directories have entries, and directories are in use. */
  ghost predicate KidsOfDirs(t: Tree)
    requires t.Consistent()
  {
    forall i :: 0 <= i < INODES && t.kids[i].Some? && t.kids[i].value != [] ==>
      t.inodes[i].used != 0 && t.inodes[i].typ == DIR
  }

  /** The number of parent links up to the root is unique. */
  lemma {:induction false} DepthUnique(t: Tree, x: int, j: nat, k: nat)
    requires |t.inodes| == INODES
    requires Below(t, x, ROOT, j) && Below(t, x, ROOT, k)
    ensures j == k
    decreases j
  {
    if j > 0 && k > 0 {
      DepthUnique(t, t.inodes[x].parent, j - 1, k - 1);
    }
  }

  /** Everything on the walk's stack is strictly closer to the root than depth n. */
  ghost predicate Above(t: Tree, stack: set<int>, n: nat)
    requires |t.inodes| == INODES
  {
    forall s :: s in stack ==> exists m: nat :: m < n && Below(t, s, ROOT, m)
  }

  /** On a good tree the walk never trips over its own stack. */
  lemma {:induction false} WalkSucceeds(t: Tree, ino: int, stack: set<int>, n: nat)
    requires t.Consistent() && TreeOk(t)
    requires 0 <= ino < INODES && stack <= AllInodes() && t.inodes[ino].used != 0 && t.inodes[ino].typ == DIR
    requires Below(t, ino, ROOT, n) && Above(t, stack, n)
    ensures Walk(t, ino, stack).Some?
    decreases AllInodes() - stack, 1, 0
  {
    if ino in stack {
      var m: nat :| m < n && Below(t, ino, ROOT, m);
      DepthUnique(t, ino, m, n);
    }
    assert ino in AllInodes() - stack;
    WalkKidsSucceeds(t, ino, |t.kids[ino].value|, stack + {ino}, n);
  }

  lemma {:induction false} WalkKidsSucceeds(t: Tree, ino: int, k: nat, stack: set<int>, n: nat)
    requires t.Consistent() && TreeOk(t)
    requires 0 <= ino < INODES && stack <= AllInodes() && t.inodes[ino].used != 0 && t.inodes[ino].typ == DIR
    requires k <= |t.kids[ino].value|
    requires Below(t, ino, ROOT, n) && Above(t, stack, n + 1)
    ensures WalkKids(t, ino, k, stack).Some?
    decreases AllInodes() - stack, 2, k
  {
    if k > 0 {
      WalkKidsSucceeds(t, ino, k - 1, stack, n);
      var c := t.kids[ino].value[k - 1];
      assert c in t.kids[ino].value;
      if t.inodes[c].typ == DIR {
        assert Below(t, c, ROOT, n + 1);
        WalkSucceeds(t, c, stack, n + 1);
      }
    }
  }

  /** What a set of inodes marked by a walk from a satisfies. */
  ghost predicate Marked(t: Tree, r: set<int>, a: int)
    requires t.Consistent()
  {
    && a in r && r <= AllInodes()
    && (forall y :: y in r ==> exists k: nat :: Below(t, y, a, k))
    && (forall y :: y in r && y != a ==>
          var p := t.inodes[y].parent;
          && 0 <= p < INODES && p in r && t.inodes[p].typ == DIR && t.kids[p].Some? && y in t.kids[p].value)
  }

  /** Every directory in r other than `open` has been read, and all it lists is in r. */
  ghost predicate ClosedBut(t: Tree, r: set<int>, open: int)
    requires t.Consistent() && r <= AllInodes()
  {
    forall y :: y in r && y != open && t.inodes[y].typ == DIR ==>
      t.kids[y].Some? && ROOT !in t.kids[y].value && forall c :: c in t.kids[y].value ==> c in r
  }

  /** The first n entries of directory a are marked, and none of them is the root. */
  ghost predicate ListedIn(t: Tree, r: set<int>, a: int, n: nat)
    requires t.Consistent() && 0 <= a < INODES && t.kids[a].Some? && n <= |t.kids[a].value|
  {
    forall k :: 0 <= k < n ==> t.kids[a].value[k] in r && t.kids[a].value[k] != ROOT
  }

  lemma CloseDirectory(t: Tree, r: set<int>, a: int)
    requires t.Consistent() && 0 <= a < INODES && t.kids[a].Some? && r <= AllInodes()
    requires ClosedBut(t, r, a) && ListedIn(t, r, a, |t.kids[a].value|)
    ensures ClosedBut(t, r, -1)
  {
  }

  lemma {:induction false} BelowTrans(t: Tree, x: int, a: int, b: int, j: nat, k: nat)
    requires |t.inodes| == INODES
    requires Below(t, x, a, j) && Below(t, a, b, k)
    ensures Below(t, x, b, j + k)
    decreases j
  {
    if j > 0 {
      BelowTrans(t, t.inodes[x].parent, a, b, j - 1, k);
    }
  }

  /** Adding the inodes found under an entry c of directory a keeps the marked set in shape. */
  lemma MarkedUnion(t: Tree, r: set<int>, a: int, c: int, s: set<int>)
    requires t.Consistent() && 0 <= a < INODES && t.inodes[a].typ == DIR
    requires t.kids[a].Some? && c in t.kids[a].value && c != ROOT
    requires Marked(t, r, a) && Marked(t, s, c) && ClosedBut(t, r, a) && ClosedBut(t, s, -1)
    ensures Marked(t, r + s, a) && ClosedBut(t, r + s, a)
  {
    forall y | y in s
      ensures exists k: nat :: Below(t, y, a, k)
    {
      var j: nat :| Below(t, y, c, j);
      assert Below(t, c, a, 1) by {
        assert Below(t, a, a, 0);
      }
      BelowTrans(t, y, c, a, j, 1);
    }
  }

  /** A walk that succeeds marks only inodes that hang below its start and leaves nothing they list unmarked. */
  lemma {:induction false} WalkMarks(t: Tree, ino: int, stack: set<int>)
    requires t.Consistent() && RootOk(t)
    requires 0 <= ino < INODES && stack <= AllInodes() && t.inodes[ino].typ == DIR
    requires Walk(t, ino, stack).Some?
    ensures Marked(t, Walk(t, ino, stack).value, ino) && ClosedBut(t, Walk(t, ino, stack).value, -1)
    decreases AllInodes() - stack, 1, 0
  {
    assert ino in AllInodes() - stack;
    WalkKidsMark(t, ino, |t.kids[ino].value|, stack + {ino});
    CloseDirectory(t, Walk(t, ino, stack).value, ino);
  }

  lemma {:induction false} WalkKidsMark(t: Tree, ino: int, n: nat, stack: set<int>)
    requires t.Consistent() && RootOk(t)
    requires 0 <= ino < INODES && stack <= AllInodes() && ino in stack && t.inodes[ino].typ == DIR
    requires t.kids[ino].Some? && n <= |t.kids[ino].value|
    requires WalkKids(t, ino, n, stack).Some?
    ensures Marked(t, WalkKids(t, ino, n, stack).value, ino)
    ensures ClosedBut(t, WalkKids(t, ino, n, stack).value, ino)
    ensures ListedIn(t, WalkKids(t, ino, n, stack).value, ino, n)
    decreases AllInodes() - stack, 2, n
  {
    if n == 0 {
      assert Below(t, ino, ino, 0);
    } else {
      WalkKidsMark(t, ino, n - 1, stack);
      var r := WalkKids(t, ino, n - 1, stack).value;
      var c := t.kids[ino].value[n - 1];
      assert c in t.kids[ino].value;
      var s := {c};
      if t.inodes[c].typ == DIR {
        WalkMarks(t, c, stack);
        s := Walk(t, c, stack).value;
      } else {
        assert Below(t, c, c, 0);
      }
      assert WalkKids(t, ino, n, stack).value == r + s;
      assert c != ROOT && c in s;
      MarkedUnion(t, r, ino, c, s);
    }
  }

  /** The reachability part of the checker. */
  ghost predicate Reaches(t: Tree)
    requires t.Consistent()
  {
    && Walk(t, ROOT, {}).Some?
    && forall i :: 0 <= i < INODES && t.inodes[i].used != 0 ==> i in Walk(t, ROOT, {}).value
  }

  /** A set that is closed under directory entries and contains a also contains everything that hangs below a. */
  lemma {:induction false} ClosedReaches(t: Tree, r: set<int>, x: int, k: nat)
    requires t.Consistent() && TreeOk(t) && ROOT in r && r <= AllInodes() && ClosedBut(t, r, -1)
    requires 0 <= x < INODES && t.inodes[x].used != 0 && Below(t, x, ROOT, k)
    ensures x in r
    decreases k
  {
    if x != ROOT {
      assert Hangs(t, x);
      ClosedReaches(t, r, t.inodes[x].parent, k - 1);
    }
  }

  /** The walk succeeds and marks every inode in use exactly when the directory graph is a tree below the root:
      this is what the reachability check accepts, seen without the walk. */
  lemma ReachesIffTree(t: Tree)
    requires t.Consistent() && RootOk(t) && KidsOfDirs(t)
    ensures Reaches(t) <==> TreeOk(t)
  {
    if TreeOk(t) {
      assert Below(t, ROOT, ROOT, 0);
      WalkSucceeds(t, ROOT, {}, 0);
      WalkMarks(t, ROOT, {});
      var r := Walk(t, ROOT, {}).value;
      forall i | 0 <= i < INODES && t.inodes[i].used != 0
        ensures i in r
      {
        assert Hangs(t, i);
        var k: nat :| Below(t, i, ROOT, k);
        ClosedReaches(t, r, i, k);
      }
    }
    if Reaches(t) {
      WalkMarks(t, ROOT, {});
      var r := Walk(t, ROOT, {}).value;
      forall i | 0 <= i < INODES && t.inodes[i].used != 0
        ensures Hangs(t, i)
      {
        assert i in r;
        if i != ROOT {
          var p := t.inodes[i].parent;
          assert t.kids[p].value != [];
        }
      }
      forall i | 0 <= i < INODES && t.inodes[i].used != 0 && t.kids[i].Some?
        ensures ROOT !in t.kids[i].value
      {
        assert i in r;
      }
    }
  }
}

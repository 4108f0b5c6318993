/** The in-memory file system in the kernel's own form: links followed and relinked in place by loops. */
module RamfsKernel {
  import opened Common
  import opened Ramfs
  import Paths

  /** The components of an absolute path; None for other paths. */
  function Components(path: seq<char>): Option<seq<seq<char>>> {
    if path == [] || path[0] != '/' then None else Some(Paths.Parts(path))
  }

  function Leaf(parts: seq<seq<char>>): seq<char>
    requires parts != []
  {
    parts[|parts| - 1]
  }

  predicate HasFree(nodes: seq<Node>) {
    exists i :: 0 <= i < |nodes| && !nodes[i].used
  }

  /** The node an absolute path leads to, or -1. */
  ghost function NodeAt(nodes: seq<Node>, kids: Kids, path: seq<char>): (r: int)
    requires Tree(nodes, kids)
    ensures r == -1 || Used(nodes, r)
  {
    if Components(path).None? then -1 else Walk(nodes, kids, 0, Components(path).value)
  }

  /** The directory that an absolute path names its last component in, or -1. */
  ghost function ParentOf(nodes: seq<Node>, kids: Kids, path: seq<char>): (r: int)
    requires Tree(nodes, kids)
    ensures r == -1 || (Used(nodes, r) && nodes[r].dir && Components(path).Some? && Components(path).value != [])
  {
    if Components(path).None? || Components(path).value == [] then -1
    else
      var d := Walk(nodes, kids, 0, Components(path).value[..|Components(path).value| - 1]);
      if d >= 0 && nodes[d].dir then d else -1
  }

  predicate Created(n: Node, dir: bool, parent: int, name: seq<char>) {
    n.used && n.dir == dir && !n.readonly && n.parent == parent && n.name == name
  }

  class Pool {
    var nodes: seq<Node>
    ghost var kids: Kids
    const fixed: set<int>  // root, and the mount points of other file systems

    ghost predicate Valid()
      reads this
    {
      Tree(nodes, kids) && 0 in fixed
    }

    /** A pool with a root and the directories /dev, /proc and /fs, which must all stay. */
    constructor ()
      ensures Valid() && fixed == {0, 1, 2, 3}
      ensures Find(nodes, kids, 0, "dev") == 1 && Find(nodes, kids, 0, "proc") == 2 && Find(nodes, kids, 0, "fs") == 3
      ensures forall m | 0 <= m < NODES :: nodes[m].used <==> m < 4
    {
      fixed := {0, 1, 2, 3};
      nodes := [Node(true, true, false, [], -1, -1, -1)] + seq(63, k => FreeNode());
      kids := seq(64, k => []);
      new;
      assert Climb(nodes, 0, 0, 0);
      forall d | 0 <= d < NODES ensures Chained(nodes, kids, d) {
      }
      MakeTop("dev", 1);
      MakeTop("proc", 2);
      MakeTop("fs", 3);
      FoundThere(nodes, kids, 1);
      FoundThere(nodes, kids, 2);
    }

    /** The k-th directory below the root of a pool that holds nothing else. */
    method MakeTop(name: seq<char>, k: nat)
      requires Valid() && 0 < k < 4 && (forall m | 0 <= m < NODES :: nodes[m].used <==> m < k)
      requires Paths.Clean([name]) && |name| < 24
      requires forall m | 0 <= m < k :: nodes[m].name != name
      modifies this`nodes, this`kids
      ensures Valid() && Others(old(nodes), nodes, k) && (forall m | 0 <= m < NODES :: nodes[m].used <==> m < k + 1)
      ensures nodes[k].dir && nodes[k].parent == 0 && nodes[k].name == name && Find(nodes, kids, 0, name) == k
    {
      TopParts(name);
      assert Walk(nodes, kids, 0, []) == 0;
      ghost var was := nodes;
      assert !was[k].used;
      var n := MakeUnder("/" + name, 0, name, true);
      assert n >= k && n <= k;
      FoundThere(nodes, kids, n);
    }

    /** Follow the sibling links of a directory. */
    method FindChild(d: int, name: seq<char>) returns (n: int)
      requires Valid() && Used(nodes, d)
      ensures n == Find(nodes, kids, d, name)
    {
      assert Chained(nodes, kids, d);
      if !nodes[d].dir {
        return -1;
      }
      n := nodes[d].first;
      ghost var i := 0;
      assert kids[d][0..] == kids[d];
      while n != -1
        invariant 0 <= i <= |kids[d]| && n == Head(kids[d][i..])
        invariant FindIn(nodes, kids[d], name) == FindIn(nodes, kids[d][i..], name)
        decreases |kids[d]| - i
      {
        assert n == kids[d][i] && kids[d][i..][1..] == kids[d][i + 1..];
        if nodes[n].name == name {
          return;
        }
        n := nodes[n].next;
        i := i + 1;
      }
    }

    /** The node an absolute path leads to. */
    method ResolvePath(path: seq<char>) returns (n: int)
      requires Valid()
      ensures n == NodeAt(nodes, kids, path)
    {
      if Components(path).None? {
        return -1;
      }
      var parts := Components(path).value;
      n := Follow(parts);
    }

    method Follow(parts: seq<seq<char>>) returns (n: int)
      requires Valid()
      ensures n == Walk(nodes, kids, 0, parts)
    {
      n := 0;
      assert parts[0..] == parts;
      for i := 0 to |parts|
        invariant Used(nodes, n) && Walk(nodes, kids, 0, parts) == Walk(nodes, kids, n, parts[i..])
      {
        assert parts[i..][0] == parts[i] && parts[i..][1..] == parts[i + 1..];
        n := FindChild(n, parts[i]);
        if n < 0 {
          return;
        }
      }
    }

    /** The directory that an absolute path names its last component in. */
    method ResolveParent(path: seq<char>) returns (d: int, leaf: seq<char>)
      requires Valid()
      ensures d == ParentOf(nodes, kids, path)
      ensures d >= 0 ==> leaf == Leaf(Components(path).value) && leaf != []
    {
      if Components(path).None? || Components(path).value == [] {
        return -1, [];
      }
      var parts := Components(path).value;
      leaf := parts[|parts| - 1];
      d := Follow(parts[..|parts| - 1]);
      if d >= 0 && !nodes[d].dir {
        d := -1;
      }
    }

    /** Take the first free node of the pool. */
    method AllocNode(dir: bool, name: seq<char>) returns (n: int)
      requires Valid()
      modifies this`nodes
      ensures n >= 0 <==> HasFree(old(nodes))
      ensures n < 0 ==> nodes == old(nodes)
      ensures n >= 0 ==> 0 < n < NODES && !old(nodes)[n].used && forall m | 0 <= m < n :: old(nodes)[m].used
      ensures n >= 0 ==> nodes == old(nodes)[n := Node(true, dir, false, Paths.Take(name, 23), -1, -1, -1)]
    {
      for i := 0 to NODES
        invariant nodes == old(nodes) && forall m | 0 <= m < i :: nodes[m].used
      {
        if !nodes[i].used {
          nodes := nodes[i := Node(true, dir, false, Paths.Take(name, 23), -1, -1, -1)];
          return i;
        }
      }
      return -1;
    }

    method AddChild(q: int, c: int)
      requires |nodes| == NODES && 0 <= q < NODES && 0 <= c < NODES
      modifies this`nodes
      ensures nodes == Hang(old(nodes), c, q)
    {
      nodes := nodes[c := nodes[c].(parent := q, next := nodes[q].first)];
      nodes := nodes[q := nodes[q].(first := c)];
    }

    /** Walk the links of the parent of c up to c and make the one that leads to it pass it by. */
    method Skip(c: int, ghost i: nat)
      requires Valid() && Used(nodes, c) && c != 0 && 0 <= nodes[c].parent < NODES
      requires Child(kids, nodes[c].parent, i) && kids[nodes[c].parent][i] == c
               && Chain(nodes, kids[nodes[c].parent], nodes[c].parent)
      modifies this`nodes
      ensures nodes == Bypass(old(nodes), kids, old(nodes)[c].parent, i)
    {
      var d := nodes[c].parent;
      var prev, cur := -1, nodes[d].first;
      ghost var j := 0;
      while cur != c
        invariant 0 <= j <= i && cur == kids[d][j] && prev == (if j == 0 then -1 else kids[d][j - 1])
        invariant nodes == old(nodes)
        decreases i - j
      {
        ChainAt(nodes, kids[d], d, j, i);
        prev := cur;
        cur := nodes[cur].next;
        j := j + 1;
      }
      PlaceIs(nodes, kids[d], d, j, i);
      if prev == -1 {
        nodes := nodes[d := nodes[d].(first := nodes[c].next)];
      } else {
        nodes := nodes[prev := nodes[prev].(next := nodes[c].next)];
      }
    }

    /** Take a node out of its parent's list, keeping it. */
    method DetachChild(c: int, ghost i: nat)
      requires Valid() && Used(nodes, c) && c != 0 && 0 <= nodes[c].parent < NODES && nodes[c].parent != c
      requires Child(kids, nodes[c].parent, i) && kids[nodes[c].parent][i] == c
               && Chain(nodes, kids[nodes[c].parent], nodes[c].parent)
      modifies this`nodes
      ensures nodes == Bypass(old(nodes), kids, old(nodes)[c].parent, i)[c := old(nodes)[c].(parent := -1, next := -1)]
    {
      SkippedAlike(nodes, kids, nodes[c].parent, i, c);
      Skip(c, i);
      nodes := nodes[c := nodes[c].(parent := -1, next := -1)];
    }

    /** Remove a node without children. */
    method UnlinkChild(c: int)
      requires Valid() && Used(nodes, c) && c != 0 && kids[c] == []
      modifies this`nodes, this`kids
      ensures Valid() && !nodes[c].used && Others(old(nodes), nodes, c)
    {
      ghost var i := Position(nodes, kids, c);
      ghost var was := nodes;
      ParentChain(nodes, kids, c);
      RemoveTree(nodes, kids, c, i);
      RemovedFields(nodes, kids, nodes[c].parent, i, c);
      Skip(c, i);
      nodes := nodes[c := nodes[c].(used := false)];
      kids := kids[was[c].parent := Without(kids[was[c].parent], i)];
    }

    /** Open for creation: an existing writable file, or a new one.  It fails when the parent is not a directory, when
        the name belongs to something else, or when the pool is full. */
    method CreateFile(path: seq<char>) returns (n: int)
      requires Valid() && ShortLeaf(path)
      modifies this`nodes, this`kids
      ensures Valid()
      ensures n >= 0 <==> old(
                var q := ParentOf(nodes, kids, path);
                q >= 0 && var x := Find(nodes, kids, q, Leaf(Components(path).value));
                if x >= 0 then !nodes[x].dir && !nodes[x].readonly else HasFree(nodes))
      ensures n < 0 ==> nodes == old(nodes)
      ensures n >= 0 ==> Used(nodes, n) && !nodes[n].dir && !nodes[n].readonly
      ensures n >= 0 ==> Walk(nodes, kids, 0, Components(path).value) == n
      ensures n >= 0 ==> if old(nodes)[n].used then nodes == old(nodes) else Others(old(nodes), nodes, n)
    {
      var q, leaf := ResolveParent(path);
      if q < 0 || leaf == [] {
        return -1;
      }
      n := FindChild(q, leaf);
      if n >= 0 {
        ghost var parts := Components(path).value;
        assert parts == parts[..|parts| - 1] + [leaf];
        WalkAppend(nodes, kids, 0, parts[..|parts| - 1], leaf);
        return if !nodes[n].dir && !nodes[n].readonly then n else -1;
      }
      n := MakeUnder(path, q, leaf, false);
    }

    /** Make a node under the name that a path ends in. */
    method MakeUnder(path: seq<char>, q: int, leaf: seq<char>, dir: bool) returns (n: int)
      requires Valid() && ShortLeaf(path) && q >= 0 && q == ParentOf(nodes, kids, path)
      requires leaf == Leaf(Components(path).value) && Find(nodes, kids, q, leaf) < 0
      modifies this`nodes, this`kids
      ensures Valid() && (n >= 0 <==> HasFree(old(nodes)))
      ensures n < 0 ==> nodes == old(nodes)
      ensures n >= 0 ==> 0 < n < NODES && !old(nodes)[n].used && forall m | 0 <= m < n :: old(nodes)[m].used
      ensures n >= 0 ==> Others(old(nodes), nodes, n) && Created(nodes[n], dir, q, leaf)
      ensures n >= 0 ==> Walk(nodes, kids, 0, Components(path).value) == n
    {
      ghost var was, before := nodes, kids;
      n := AllocNode(dir, leaf);
      if n < 0 {
        return;
      }
      Added(was, before, n, nodes[n], q, Components(path).value);
      AddChild(q, n);
      kids := kids[q := [n] + kids[q]];
    }

    method Mkdir(path: seq<char>) returns (ret: int)
      requires Valid() && ShortLeaf(path)
      modifies this`nodes, this`kids
      ensures Valid() && (ret == 0 || ret == -1)
      ensures ret == 0 <==> old(
                var q := ParentOf(nodes, kids, path);
                q >= 0 && Find(nodes, kids, q, Leaf(Components(path).value)) < 0 && HasFree(nodes))
      ensures ret < 0 ==> nodes == old(nodes)
      ensures ret == 0 ==> var n := Walk(nodes, kids, 0, Components(path).value);
                && n > 0 && !old(nodes)[n].used && Others(old(nodes), nodes, n)
                && Created(nodes[n], true, old(ParentOf(nodes, kids, path)), Leaf(Components(path).value))
    {
      var q, leaf := ResolveParent(path);
      if q < 0 || leaf == [] {
        return -1;
      }
      var old_ := FindChild(q, leaf);
      if old_ >= 0 {
        return -1;
      }
      var n := MakeUnder(path, q, leaf, true);
      ret := if n < 0 then -1 else 0;
    }

    /** Remove a file: it must be writable and not one of the nodes that stay. */
    method Unlink(path: seq<char>) returns (ret: int)
      requires Valid()
      modifies this`nodes, this`kids
      ensures Valid() && (ret == 0 || ret == -1)
      ensures ret == 0 <==>
              old(var n := NodeAt(nodes, kids, path); n >= 0 && n !in fixed && !nodes[n].readonly && !nodes[n].dir)
      ensures ret < 0 ==> nodes == old(nodes)
      ensures ret == 0 ==> var n := old(NodeAt(nodes, kids, path)); !nodes[n].used && Others(old(nodes), nodes, n)
    {
      var n := ResolvePath(path);
      if n < 0 || n in fixed || nodes[n].readonly || nodes[n].dir {
        return -1;
      }
      assert Chained(nodes, kids, n);
      UnlinkChild(n);
      ret := 0;
    }

    /** Remove an empty directory. */
    method Rmdir(path: seq<char>) returns (ret: int)
      requires Valid()
      modifies this`nodes, this`kids
      ensures Valid() && (ret == 0 || ret == -1)
      ensures ret == 0 <==> old(var n := NodeAt(nodes, kids, path);
                                n >= 0 && n !in fixed && !nodes[n].readonly && nodes[n].dir && kids[n] == [])
      ensures ret < 0 ==> nodes == old(nodes)
      ensures ret == 0 ==> var n := old(NodeAt(nodes, kids, path)); !nodes[n].used && Others(old(nodes), nodes, n)
    {
      var n := ResolvePath(path);
      if n < 0 {
        return -1;
      }
      assert Chained(nodes, kids, n);
      if n in fixed || nodes[n].readonly || !nodes[n].dir || nodes[n].first != -1 {
        return -1;
      }
      UnlinkChild(n);
      ret := 0;
    }

    /** Rename, moving a whole subtree.  The code does not ask whether the new parent lies inside that subtree: if it
        does not, the pool stays a tree and the new path leads to the node; if it does, the call succeeds as well, and
        nothing leads to the node any more. */
    method Rename(from: seq<char>, to: seq<char>) returns (ret: int)
      requires Valid() && ShortLeaf(to)
      modifies this`nodes, this`kids
      ensures ret == 0 || ret == -1
      ensures ret == 0 <==> old(
                var n, q := NodeAt(nodes, kids, from), ParentOf(nodes, kids, to);
                n >= 0 && n !in fixed && !nodes[n].readonly && q >= 0
                && Find(nodes, kids, q, Leaf(Components(to).value)) < 0)
      ensures ret < 0 ==> Valid() && nodes == old(nodes)
      ensures ret == 0 ==> var n, q := old(NodeAt(nodes, kids, from)), old(ParentOf(nodes, kids, to));
                && Others(old(nodes), nodes, n) && nodes[n].parent == q
                && nodes[n].used && nodes[n].dir == old(nodes)[n].dir
                && if Under(old(nodes), q, n) then !Under(nodes, n, 0) && forall ks: Kids :: !Tree(nodes, ks)
                   else Valid() && NodeAt(nodes, kids, to) == n
    {
      var n := ResolvePath(from);
      var q, leaf := ResolveParent(to);
      if n < 0 || n in fixed || nodes[n].readonly || q < 0 || leaf == [] {
        return -1;
      }
      var old_ := FindChild(q, leaf);
      if old_ >= 0 {
        return -1;
      }
      MoveUnder(n, q, Paths.Take(leaf, 23), Components(to).value);
      ret := 0;
    }

    method MoveUnder(n: int, q: int, name: seq<char>, ghost parts: seq<seq<char>>)
      requires Valid() && Used(nodes, n) && n != 0 && Used(nodes, q) && nodes[q].dir
      requires Find(nodes, kids, q, name) < 0 && parts != [] && name == Leaf(parts)
      requires q == Walk(nodes, kids, 0, parts[..|parts| - 1])
      modifies this`nodes, this`kids
      ensures Others(old(nodes), nodes, n) && nodes[n].parent == q
      ensures nodes[n].used && nodes[n].dir == old(nodes)[n].dir && nodes[n].name == name
      ensures if Under(old(nodes), q, n) then !Under(nodes, n, 0) && forall ks: Kids :: !Tree(nodes, ks)
              else Valid() && Walk(nodes, kids, 0, parts) == n
    {
      ghost var i := Position(nodes, kids, n);
      ghost var d := nodes[n].parent;
      FreshWhenNotFound(nodes, kids, q, name);
      MovedFields(nodes, kids, n, i, name, q);
      MoveTreeIff(nodes, kids, n, i, name, q);
      if !Under(nodes, q, n) {
        MovedTo(nodes, kids, n, i, name, q, parts);
      }
      Renamed(nodes, kids, d, i, n, name);
      DetachChild(n, i);
      nodes := nodes[n := nodes[n].(name := name)];
      AddChild(q, n);
      kids := MovedKids(kids, d, i, n, q);
    }
  }

  /** No node but those of the boot pool is there: the root has no child of another name. */
  lemma NoOther(nodes: seq<Node>, kids: Kids, name: seq<char>)
    requires Tree(nodes, kids) && (forall m | 0 <= m < NODES :: nodes[m].used <==> m < 4)
    requires forall m | 0 < m < 4 :: nodes[m].name != name
    ensures Find(nodes, kids, 0, name) < 0
  {
  }

  lemma ShortPaths()
    ensures Components("/a") == Some(["a"]) && Components("/a/b") == Some(["a", "b"])
  {
    TopParts("a");
    Paths.PartsRender(["a", "b"]);
    assert "/" + "a" == "/a" && Paths.Render(["a", "b"]) == "/a/b" by {
      assert ["a", "b"][..1] == ["a"] && ["a"][..0] == [];
      assert Paths.Body(["a"]) == "/a";
      assert Paths.Body(["a", "b"]) == "/a/b";
    }
  }

  /** A new directory below the root is empty. */
  lemma NewIsEmpty(was: seq<Node>, nodes: seq<Node>, kids: Kids, n: int, name: seq<char>)
    requires Tree(nodes, kids) && |was| == NODES && Used(nodes, n) && n != 0 && nodes[n].parent == 0
    requires Others(was, nodes, n) && forall m | 0 < m < NODES && m != n && was[m].used :: was[m].parent == 0
    ensures Find(nodes, kids, n, name) < 0
  {
  }

  lemma InRoot(nodes: seq<Node>, kids: Kids, path: seq<char>, a: seq<char>)
    requires Tree(nodes, kids) && Components(path) == Some([a])
    ensures ParentOf(nodes, kids, path) == 0 && Leaf([a]) == a
  {
    assert [a][..0] == [] && Walk(nodes, kids, 0, []) == 0;
  }

  lemma InItself(nodes: seq<Node>, kids: Kids, path: seq<char>, a: seq<char>, b: seq<char>, n: int)
    requires Tree(nodes, kids) && Components(path) == Some([a, b]) && Used(nodes, n) && nodes[n].dir
    requires Walk(nodes, kids, 0, [a]) == n
    ensures ParentOf(nodes, kids, path) == n && Leaf([a, b]) == b && Under(nodes, n, n)
  {
    assert [a, b][..1] == [a];
    assert Climb(nodes, n, n, 0);
  }

  /** The pool at boot with one more directory below the root. */
  method BootAnd(path: seq<char>, a: seq<char>, ghost b: seq<char>) returns (p: Pool, made: int, ghost n: int)
    requires Components(path) == Some([a]) && |a| < 24 && a != "dev" && a != "proc" && a != "fs"
    ensures fresh(p) && p.Valid() && made == 0 && 0 < n < NODES && n !in p.fixed && p.nodes[n].used && p.nodes[n].dir
    ensures !p.nodes[n].readonly && NodeAt(p.nodes, p.kids, path) == n == Walk(p.nodes, p.kids, 0, [a])
    ensures Find(p.nodes, p.kids, n, b) < 0
  {
    p := new Pool();
    NoOther(p.nodes, p.kids, a);
    InRoot(p.nodes, p.kids, path, a);
    assert !p.nodes[4].used;
    ghost var was := p.nodes;
    made := p.Mkdir(path);
    n := NodeAt(p.nodes, p.kids, path);
    NewIsEmpty(was, p.nodes, p.kids, n, b);
  }

  /** In the pool at boot a directory can be made below the root and then renamed to a name inside itself, which cuts it
      off from the root. */
  method RenameInside(from: seq<char>, to: seq<char>, a: seq<char>, b: seq<char>)
    returns (p: Pool, made: int, moved: int)
    requires Components(from) == Some([a]) && Components(to) == Some([a, b]) && |a| < 24 && |b| < 24
    requires a != "dev" && a != "proc" && a != "fs"
    ensures made == 0 && moved == 0 && |p.nodes| == NODES
    ensures exists n :: 0 < n < NODES && p.nodes[n].used && !Under(p.nodes, n, 0)
    ensures forall ks: Kids :: !Tree(p.nodes, ks)
  {
    ghost var n;
    p, made, n := BootAnd(from, a, b);
    InItself(p.nodes, p.kids, to, a, b, n);
    moved := p.Rename(from, to);
  }

  /** For instance /a to /a/b. */
  method RenameIntoItself() returns (p: Pool, made: int, moved: int)
    ensures made == 0 && moved == 0 && forall ks: Kids :: !Tree(p.nodes, ks)
  {
    ShortPaths();
    p, made, moved := RenameInside("/a", "/a/b", "a", "b");
  }

  /** The last component fits a name field. */
  predicate ShortLeaf(path: seq<char>) {
    Components(path).Some? && Components(path).value != [] ==> |Leaf(Components(path).value)| < 24
  }

  lemma TopParts(name: seq<char>)
    requires Paths.Clean([name])
    ensures Components("/" + name) == Some([name])
  {
    Paths.PartsRender([name]);
    assert Paths.Body([name]) == Paths.Body([]) + "/" + name;
    assert Paths.Body([name]) == "/" + name;
  }

  /** A node is found under its name in its parent. */
  lemma FoundThere(nodes: seq<Node>, kids: Kids, n: int)
    requires Tree(nodes, kids) && Used(nodes, n) && n != 0
    ensures Used(nodes, nodes[n].parent) && Find(nodes, kids, nodes[n].parent, nodes[n].name) == n
  {
    assert Listed(nodes, kids, n);
    var d := nodes[n].parent;
    assert Chained(nodes, kids, d);
    FindInUnique(nodes, kids[d], n);
  }

  /** Detaching and then renaming is one update of the node. */
  lemma Renamed(nodes: seq<Node>, kids: Kids, d: int, i: nat, c: int, name: seq<char>)
    requires |nodes| == NODES && Child(kids, d, i) && d < NODES && Chain(nodes, kids[d], d) && 0 <= c < NODES
    ensures var r := Bypass(nodes, kids, d, i)[c := nodes[c].(parent := -1, next := -1)];
            r[c := r[c].(name := name)] ==
              Bypass(nodes, kids, d, i)[c := nodes[c].(parent := -1, next := -1, name := name)]
  {
  }

  /** Passing a node by changes nothing in the node itself. */
  lemma SkippedAlike(nodes: seq<Node>, kids: Kids, d: int, i: nat, c: int)
    requires |nodes| == NODES && Child(kids, d, i) && d < NODES && Chain(nodes, kids[d], d) && c == kids[d][i] && d != c
    ensures Bypass(nodes, kids, d, i)[c] == nodes[c]
  {
  }

  lemma AddedFields(nodes: seq<Node>, c: int, n: Node, q: int)
    requires |nodes| == NODES && 0 < c < NODES && !nodes[c].used && n.used && Used(nodes, q) && nodes[q].dir
    ensures var nodes' := Hang(nodes[c := n], c, q);
            && nodes'[c].used && nodes'[c].dir == n.dir && nodes'[c].readonly == n.readonly && nodes'[c].name == n.name
            && nodes'[c].parent == q && nodes'[q].dir && Others(nodes, nodes', c)
  {
  }

  lemma FreshWhenNotFound(nodes: seq<Node>, kids: Kids, q: int, name: seq<char>)
    requires Tree(nodes, kids) && Used(nodes, q) && nodes[q].dir && Find(nodes, kids, q, name) < 0
    ensures FreshName(nodes, kids[q], name)
  {
    assert Chained(nodes, kids, q);
  }

  lemma SplitLeaf(parts: seq<seq<char>>)
    requires parts != []
    ensures parts == parts[..|parts| - 1] + [Leaf(parts)]
  {
  }

  /** What adding a node comes to, put together. */
  lemma Added(nodes: seq<Node>, kids: Kids, c: int, n: Node, q: int, parts: seq<seq<char>>)
    requires Tree(nodes, kids) && 0 < c < NODES && !nodes[c].used && n.used && n.first == -1
    requires Used(nodes, q) && nodes[q].dir && parts != [] && n.name == Leaf(parts) && Find(nodes, kids, q, n.name) < 0
    requires Walk(nodes, kids, 0, parts[..|parts| - 1]) == q
    ensures var nodes', kids' := Hang(nodes[c := n], c, q), kids[q := [c] + kids[q]];
            && Tree(nodes', kids') && Walk(nodes', kids', 0, parts) == c && Others(nodes, nodes', c)
            && nodes'[c].used && nodes'[c].dir == n.dir && nodes'[c].readonly == n.readonly && nodes'[c].parent == q
            && nodes'[c].name == n.name
  {
    FreshWhenNotFound(nodes, kids, q, n.name);
    AddTree(nodes, kids, c, n, q);
    AddedFields(nodes, c, n, q);
    NotUnderUnused(nodes, kids, q, c);
    SplitLeaf(parts);
    LeadsTo(nodes, kids, Hang(nodes[c := n], c, q), kids[q := [c] + kids[q]], c, q, parts[..|parts| - 1]);
  }

  /** The links of a node's parent represent its list of children. */
  lemma ParentChain(nodes: seq<Node>, kids: Kids, c: int)
    requires Tree(nodes, kids) && Used(nodes, c) && c != 0
    ensures 0 <= nodes[c].parent < NODES && nodes[c].parent != c
    ensures Chain(nodes, kids[nodes[c].parent], nodes[c].parent)
  {
    assert Listed(nodes, kids, c) && Chained(nodes, kids, nodes[c].parent);
    NotOwnChild(nodes, kids, c);
  }

  lemma RemovedFields(nodes: seq<Node>, kids: Kids, d: int, i: nat, c: int)
    requires |nodes| == NODES && Child(kids, d, i) && d < NODES && Chain(nodes, kids[d], d) && c == kids[d][i] && d != c
    ensures var r := Bypass(nodes, kids, d, i);
            r[c] == nodes[c] && Others(nodes, r[c := nodes[c].(used := false)], c)
  {
    BypassDir(nodes, kids, d, i);
    SkippedAlike(nodes, kids, d, i, c);
  }

  /** What moving a node comes to, put together. */
  lemma MovedTo(nodes: seq<Node>, kids: Kids, c: int, i: nat, name: seq<char>, q: int, parts: seq<seq<char>>)
    requires Movable(nodes, kids, c, i, name, q)
    requires parts != [] && name == Leaf(parts) && Walk(nodes, kids, 0, parts[..|parts| - 1]) == q
    ensures var d := nodes[c].parent;
            var nodes', kids' := Moved(nodes, kids, d, i, c, name, q), MovedKids(kids, d, i, c, q);
            && Tree(nodes', kids') && Walk(nodes', kids', 0, parts) == c && Others(nodes, nodes', c)
            && nodes'[c].used && nodes'[c].dir == nodes[c].dir && nodes'[c].parent == q && nodes'[c].name == name
  {
    var d := nodes[c].parent;
    MoveTree(nodes, kids, c, i, name, q);
    MovedFields(nodes, kids, c, i, name, q);
    SplitLeaf(parts);
    LeadsTo(nodes, kids, Moved(nodes, kids, d, i, c, name, q), MovedKids(kids, d, i, c, q), c, q, parts[..|parts| - 1]);
  }
}

/** The in-memory file system: a pool of nodes linked by parent, first-child and next-sibling links.

    Links are indices into the pool, -1 for none.  Next to the links stands the list of children of every node that they
    represent. */
module Ramfs {
  import Paths

  const NODES: nat := 64

  datatype Node = Node(used: bool, dir: bool, readonly: bool, name: seq<char>, parent: int, first: int, next: int)

  function FreeNode(): Node {
    Node(false, false, false, [], -1, -1, -1)
  }

  type Kids = seq<seq<int>>

  function Head(s: seq<int>): int {
    if s == [] then -1 else s[0]
  }

  // ---------------------------------------------------------------- the invariant

  predicate Used(nodes: seq<Node>, n: int) {
    |nodes| == NODES && 0 <= n < NODES && nodes[n].used
  }

  /** The links represent the list `ks` of children of d. */
  ghost predicate Chain(nodes: seq<Node>, ks: seq<int>, d: int)
    requires |nodes| == NODES && 0 <= d < NODES
  {
    && nodes[d].first == Head(ks)
    && (forall i | 0 <= i < |ks| :: 0 < ks[i] < NODES && nodes[ks[i]].used && nodes[ks[i]].parent == d
                                    && nodes[ks[i]].next == Head(ks[i + 1..]))
    && (forall i, j | 0 <= i < j < |ks| :: ks[i] != ks[j] && nodes[ks[i]].name != nodes[ks[j]].name)
  }

  /** Only directories in use have children. */
  ghost predicate Chained(nodes: seq<Node>, kids: Kids, d: int)
    requires |nodes| == NODES && |kids| == NODES && 0 <= d < NODES
  {
    if nodes[d].used then Chain(nodes, kids[d], d) && (!nodes[d].dir ==> kids[d] == []) else kids[d] == []
  }

  /** Going up from x for k steps, never from the root, leads to a. */
  ghost predicate Climb(nodes: seq<Node>, x: int, a: int, k: nat)
    requires |nodes| == NODES
    decreases k
  {
    if k == 0 then x == a else 0 < x < NODES && Climb(nodes, nodes[x].parent, a, k - 1)
  }

  /** x lies in the subtree of a. */
  ghost predicate Under(nodes: seq<Node>, x: int, a: int)
    requires |nodes| == NODES
  {
    exists k: nat :: Climb(nodes, x, a, k)
  }

  /** A node in use other than the root is listed by its parent, a directory in use. */
  ghost predicate Listed(nodes: seq<Node>, kids: Kids, n: int)
    requires |nodes| == NODES && |kids| == NODES && 0 <= n < NODES
  {
    var p := nodes[n].parent;
    0 <= p < NODES && nodes[p].used && nodes[p].dir && n in kids[p]
  }

  /** Sibling lists are as the links say, siblings have different names, and every node in use but the root, and but c,
      is listed by its parent; c is in no list. */
  ghost predicate Linked(nodes: seq<Node>, kids: Kids, c: int) {
    && |nodes| == NODES && |kids| == NODES && nodes[0].used && nodes[0].dir
    && (forall d | 0 <= d < NODES :: Chained(nodes, kids, d))
    && (forall n | 0 < n < NODES && nodes[n].used && n != c :: Listed(nodes, kids, n))
    && (forall d | 0 <= d < NODES :: c !in kids[d])
  }

  /** The pool is one finite tree: every node in use but the root is listed by its parent, and going up always ends at
      the root. */
  ghost predicate Tree(nodes: seq<Node>, kids: Kids) {
    Linked(nodes, kids, 0) && forall n | 0 <= n < NODES && nodes[n].used :: Under(nodes, n, 0)
  }

  /** Every node in use is reachable by exactly one position in one list. */
  lemma ListedOnce(nodes: seq<Node>, kids: Kids, n: int, d: int, i: nat)
    requires Tree(nodes, kids) && Used(nodes, n) && 0 <= d < NODES && i < |kids[d]| && kids[d][i] == n
    ensures nodes[n].parent == d && forall e, j | 0 <= e < NODES && 0 <= j < |kids[e]| && kids[e][j] == n ::
            e == d && j == i
  {
    assert Chained(nodes, kids, d);
    forall e, j | 0 <= e < NODES && 0 <= j < |kids[e]| && kids[e][j] == n ensures e == d && j == i {
      assert Chained(nodes, kids, e);
    }
  }

  // ---------------------------------------------------------------- climbing

  lemma {:induction false} ClimbTrans(nodes: seq<Node>, x: int, a: int, b: int, j: nat, k: nat)
    requires |nodes| == NODES && Climb(nodes, x, a, j) && Climb(nodes, a, b, k)
    ensures Climb(nodes, x, b, j + k)
    decreases j
  {
    if j > 0 {
      ClimbTrans(nodes, nodes[x].parent, a, b, j - 1, k);
    }
  }

  lemma NotUnderParent(nodes: seq<Node>, x: int, c: int)
    requires |nodes| == NODES && 0 < x < NODES && !Under(nodes, x, c)
    ensures !Under(nodes, nodes[x].parent, c)
  {
    forall j: nat | Climb(nodes, nodes[x].parent, c, j) ensures Climb(nodes, x, c, j + 1) {
    }
  }

  /** A climb that avoids node c, or only arrives there, does not notice changes to c and to anything but parents. */
  lemma {:induction false} ClimbKept(nodes: seq<Node>, nodes': seq<Node>, c: int, x: int, a: int, k: nat)
    requires |nodes| == NODES && |nodes'| == NODES && Climb(nodes, x, a, k)
    requires forall m | 0 <= m < NODES && m != c :: nodes'[m].parent == nodes[m].parent
    requires a == c || !Under(nodes, x, c)
    ensures exists j: nat :: Climb(nodes', x, a, j)
    decreases k
  {
    assert x == c ==> Climb(nodes, x, c, 0);
    if x == a {
      assert Climb(nodes', x, a, 0);
    } else {
      var p := nodes[x].parent;
      if a != c {
        NotUnderParent(nodes, x, c);
      }
      ClimbKept(nodes, nodes', c, p, a, k - 1);
      var j: nat :| Climb(nodes', p, a, j);
      assert Climb(nodes', x, a, j + 1);
    }
  }

  /** After node c has been hung somewhere else, outside its own subtree, everything still ends at the root. */
  lemma UnderMoved(nodes: seq<Node>, nodes': seq<Node>, c: int, x: int, q: int)
    requires |nodes| == NODES && |nodes'| == NODES && 0 < c < NODES && Under(nodes, x, 0)
    requires forall m | 0 <= m < NODES && m != c :: nodes'[m].parent == nodes[m].parent
    requires nodes'[c].parent == q && Under(nodes, q, 0) && !Under(nodes, q, c)
    ensures Under(nodes', x, 0)
  {
    var k: nat :| Climb(nodes, x, 0, k);
    if Under(nodes, x, c) {
      var j: nat :| Climb(nodes, x, c, j);
      ClimbKept(nodes, nodes', c, x, c, j);
      var j': nat :| Climb(nodes', x, c, j');
      var m: nat :| Climb(nodes, q, 0, m);
      ClimbKept(nodes, nodes', c, q, 0, m);
      var m': nat :| Climb(nodes', q, 0, m');
      assert Climb(nodes', c, 0, m' + 1);
      ClimbTrans(nodes', x, c, 0, j', m' + 1);
    } else {
      ClimbKept(nodes, nodes', c, x, 0, k);
    }
  }

  // ---------------------------------------------------------------- unlinking

  predicate Child(kids: Kids, d: int, i: nat) {
    0 <= d < |kids| && i < |kids[d]|
  }

  function Without(s: seq<int>, i: nat): seq<int>
    requires i < |s|
  {
    s[..i] + s[i + 1..]
  }

  /** The nodes after the i-th child of d has been taken out of the sibling list; the child itself is as before. */
  function Bypass(nodes: seq<Node>, kids: Kids, d: int, i: nat): (r: seq<Node>)
    requires |nodes| == NODES && Child(kids, d, i) && d < NODES && forall j | 0 <= j < |kids[d]| ::
             0 <= kids[d][j] < NODES
    ensures |r| == |nodes|
  {
    var next := nodes[kids[d][i]].next;
    if i == 0 then nodes[d := nodes[d].(first := next)]
    else nodes[kids[d][i - 1] := nodes[kids[d][i - 1]].(next := next)]
  }

  lemma WithoutAt(s: seq<int>, i: nat, j: nat)
    requires i < |s| && j < |s| - 1
    ensures Without(s, i)[j] == s[if j < i then j else j + 1]
    ensures Head(Without(s, i)[j + 1..]) ==
            if j + 1 == i then Head(s[i + 1..]) else Head(s[(if j < i then j else j + 1) + 1..])
  {
    var t, m := Without(s, i), if j < i then j else j + 1;
    if j + 2 < |s| {
      assert t[j + 1..][0] == t[j + 1];
    }
    if i + 1 < |s| {
      assert s[i + 1..][0] == s[i + 1];
    }
    if m + 1 < |s| {
      assert s[m + 1..][0] == s[m + 1];
    }
  }

  lemma BypassLinks(nodes: seq<Node>, kids: Kids, d: int, i: nat, j: nat)
    requires |nodes| == NODES && Child(kids, d, i) && d < NODES && Chain(nodes, kids[d], d) && j < |kids[d]| - 1
    ensures var nodes', ks' := Bypass(nodes, kids, d, i), Without(kids[d], i);
            && 0 < ks'[j] < NODES && nodes'[ks'[j]].used && nodes'[ks'[j]].parent == d
            && nodes'[ks'[j]].next == Head(ks'[j + 1..]) && nodes'[ks'[j]].name == nodes[ks'[j]].name
  {
    WithoutAt(kids[d], i, j);
    var m := if j < i then j else j + 1;
    assert kids[d][i] != kids[d][m] && nodes[kids[d][i]].next == Head(kids[d][i + 1..]);
    if i > 0 && m != i - 1 {
      assert kids[d][i - 1] != kids[d][m];
    }
  }

  /** The shortened list is what the links now represent. */
  lemma BypassChain(nodes: seq<Node>, kids: Kids, d: int, i: nat)
    requires |nodes| == NODES && Child(kids, d, i) && d < NODES && Chain(nodes, kids[d], d)
    ensures Chain(Bypass(nodes, kids, d, i), Without(kids[d], i), d)
  {
    var ks, nodes' := kids[d], Bypass(nodes, kids, d, i);
    var ks' := Without(ks, i);
    forall j | 0 <= j < |ks'|
      ensures 0 < ks'[j] < NODES && nodes'[ks'[j]].used && nodes'[ks'[j]].parent == d
              && nodes'[ks'[j]].next == Head(ks'[j + 1..])
    {
      BypassLinks(nodes, kids, d, i, j);
    }
    forall j, k | 0 <= j < k < |ks'| ensures ks'[j] != ks'[k] && nodes'[ks'[j]].name != nodes'[ks'[k]].name {
      WithoutAt(ks, i, j);
      WithoutAt(ks, i, k);
      BypassLinks(nodes, kids, d, i, j);
      BypassLinks(nodes, kids, d, i, k);
    }
    BypassFirst(nodes, kids, d, i);
  }

  lemma BypassFirst(nodes: seq<Node>, kids: Kids, d: int, i: nat)
    requires |nodes| == NODES && Child(kids, d, i) && d < NODES && Chain(nodes, kids[d], d)
    ensures Bypass(nodes, kids, d, i)[d].first == Head(Without(kids[d], i))
  {
    assert nodes[kids[d][i]].next == Head(kids[d][i + 1..]);
    assert i == 0 ==> Without(kids[d], i) == kids[d][1..];
  }

  /** Following the link of the j-th child leads to the next one. */
  lemma ChainAt(nodes: seq<Node>, ks: seq<int>, d: int, j: nat, i: nat)
    requires |nodes| == NODES && 0 <= d < NODES && Chain(nodes, ks, d) && j < i < |ks|
    ensures 0 < ks[j] < NODES && nodes[ks[j]].next == ks[j + 1] && ks[j] != ks[i]
  {
    assert Head(ks[j + 1..]) == ks[j + 1];
  }

  /** Which member of a list it is says where it stands. */
  lemma PlaceIs(nodes: seq<Node>, ks: seq<int>, d: int, j: nat, i: nat)
    requires |nodes| == NODES && 0 <= d < NODES && Chain(nodes, ks, d) && j <= i < |ks|
    ensures ks[j] == ks[i] <==> j == i
  {
  }

  predicate SameLinks(m: Node, n: Node) {
    m.used == n.used && m.parent == n.parent && m.next == n.next && m.name == n.name
  }

  /** A list stays a list when nothing about its owner's first link and its members' links changes. */
  lemma ChainKept(nodes: seq<Node>, nodes': seq<Node>, ks: seq<int>, d: int)
    requires |nodes| == NODES && |nodes'| == NODES && 0 <= d < NODES && Chain(nodes, ks, d)
    requires nodes'[d].first == nodes[d].first && forall j | 0 <= j < |ks| :: SameLinks(nodes'[ks[j]], nodes[ks[j]])
    ensures Chain(nodes', ks, d)
  {
  }

  /** A change to node c that no list other than its own mentions. */
  lemma ChainWithout(nodes: seq<Node>, ks: seq<int>, d: int, c: int, n: Node)
    requires |nodes| == NODES && 0 <= d < NODES && 0 <= c < NODES && c !in ks && c != d && Chain(nodes, ks, d)
    ensures Chain(nodes[c := n], ks, d)
  {
  }

  /** c is the i-th child of d, and n is what becomes of it: a node with the same children, or an unused one without. */
  ghost predicate Leaving(nodes: seq<Node>, kids: Kids, d: int, i: nat, c: int, n: Node) {
    && Linked(nodes, kids, 0) && Child(kids, d, i) && d < NODES && Chain(nodes, kids[d], d) && c == kids[d][i] && d != c
    && n.first == nodes[c].first && (if n.used then nodes[c].used && n.dir == nodes[c].dir else kids[c] == [])
  }

  lemma UnlinkOwner(nodes: seq<Node>, kids: Kids, d: int, i: nat, c: int, n: Node)
    requires Leaving(nodes, kids, d, i, c, n)
    ensures Chain(Bypass(nodes, kids, d, i)[c := n], Without(kids[d], i), d) && c !in Without(kids[d], i)
  {
    BypassChain(nodes, kids, d, i);
    NotInWithout(kids[d], i);
    ChainWithout(Bypass(nodes, kids, d, i), Without(kids[d], i), d, c, n);
  }

  /** The children of another node e are untouched. */
  lemma UnlinkOther(nodes: seq<Node>, kids: Kids, d: int, i: nat, c: int, n: Node, e: int)
    requires Leaving(nodes, kids, d, i, c, n) && 0 <= e < NODES && e != d && Chain(nodes, kids[e], e)
    ensures Chain(Bypass(nodes, kids, d, i)[c := n], kids[e], e) && c !in kids[e]
  {
    var nodes1 := Bypass(nodes, kids, d, i);
    forall j | 0 <= j < |kids[e]| ensures SameLinks(nodes1[kids[e][j]], nodes[kids[e][j]]) && kids[e][j] != c {
      assert nodes[kids[e][j]].parent == e;
      if i > 0 {
        assert nodes[kids[d][i - 1]].parent == d;
      }
    }
    BypassKeepsFirst(nodes, kids, d, i, e);
    ChainKept(nodes, nodes1, kids[e], e);
    if e != c {
      ChainWithout(nodes1, kids[e], e, c, n);
    } else {
      ChainKept(nodes1, nodes1[c := n], kids[e], e);
    }
  }

  lemma BypassKeepsFirst(nodes: seq<Node>, kids: Kids, d: int, i: nat, e: int)
    requires |nodes| == NODES && Child(kids, d, i) && d < NODES && Chain(nodes, kids[d], d) && 0 <= e < NODES && e != d
    ensures var e' := Bypass(nodes, kids, d, i)[e];
            e'.first == nodes[e].first && e'.used == nodes[e].used && e'.dir == nodes[e].dir
  {
  }

  lemma UnlinkChained(nodes: seq<Node>, kids: Kids, d: int, i: nat, c: int, n: Node, e: int)
    requires Leaving(nodes, kids, d, i, c, n) && 0 <= e < NODES
    ensures var kids' := kids[d := Without(kids[d], i)];
            Chained(Bypass(nodes, kids, d, i)[c := n], kids', e) && c !in kids'[e]
  {
    assert Chained(nodes, kids, e) && Chained(nodes, kids, d);
    if e == d {
      UnlinkOwner(nodes, kids, d, i, c, n);
      BypassDir(nodes, kids, d, i);
    } else {
      BypassKeepsFirst(nodes, kids, d, i, e);
      if nodes[e].used {
        UnlinkOther(nodes, kids, d, i, c, n, e);
      }
    }
  }

  lemma BypassDir(nodes: seq<Node>, kids: Kids, d: int, i: nat)
    requires |nodes| == NODES && Child(kids, d, i) && d < NODES && Chain(nodes, kids[d], d)
    ensures forall m | 0 <= m < NODES :: var n := Bypass(nodes, kids, d, i)[m];
              n.used == nodes[m].used && n.dir == nodes[m].dir && n.parent == nodes[m].parent && n.name == nodes[m].name
              && n.readonly == nodes[m].readonly
  {
  }

  /** Taking the i-th child c of d out of its list, and changing c in a way its own list does not notice. */
  lemma Unlink(nodes: seq<Node>, kids: Kids, d: int, i: nat, c: int, n: Node)
    requires Leaving(nodes, kids, d, i, c, n)
    ensures Linked(Bypass(nodes, kids, d, i)[c := n], kids[d := Without(kids[d], i)], c)
  {
    var nodes', kids' := Bypass(nodes, kids, d, i)[c := n], kids[d := Without(kids[d], i)];
    BypassDir(nodes, kids, d, i);
    forall e | 0 <= e < NODES ensures Chained(nodes', kids', e) && c !in kids'[e] {
      UnlinkChained(nodes, kids, d, i, c, n, e);
    }
    forall m | 0 < m < NODES && nodes'[m].used && m != c ensures Listed(nodes', kids', m) {
      UnlinkListed(nodes, kids, d, i, c, n, m);
    }
  }

  lemma UnlinkListed(nodes: seq<Node>, kids: Kids, d: int, i: nat, c: int, n: Node, m: int)
    requires Leaving(nodes, kids, d, i, c, n) && 0 < m < NODES && nodes[m].used && m != c
    ensures Listed(Bypass(nodes, kids, d, i)[c := n], kids[d := Without(kids[d], i)], m)
  {
    BypassDir(nodes, kids, d, i);
    assert Listed(nodes, kids, m);
    if nodes[m].parent == d {
      var j :| 0 <= j < |kids[d]| && kids[d][j] == m;
      WithoutAt(kids[d], i, if j < i then j else j - 1);
    } else if nodes[m].parent == c {
      assert kids[c] != [];
    }
  }

  lemma NotInWithout(s: seq<int>, i: nat)
    requires i < |s| && forall j, k | 0 <= j < k < |s| :: s[j] != s[k]
    ensures s[i] !in Without(s, i)
  {
    forall j | 0 <= j < |s| - 1 ensures Without(s, i)[j] != s[i] {
      WithoutAt(s, i, j);
    }
  }

  // ---------------------------------------------------------------- linking

  /** c becomes the first child of q. */
  function Hang(nodes: seq<Node>, c: int, q: int): (r: seq<Node>)
    requires |nodes| == NODES && 0 <= c < NODES && 0 <= q < NODES
    ensures |r| == NODES
  {
    var r := nodes[c := nodes[c].(parent := q, next := nodes[q].first)];
    r[q := r[q].(first := c)]
  }

  predicate FreshName(nodes: seq<Node>, ks: seq<int>, name: seq<char>) {
    forall i | 0 <= i < |ks| && 0 <= ks[i] < |nodes| :: nodes[ks[i]].name != name
  }

  lemma HangFields(nodes: seq<Node>, c: int, q: int, m: int)
    requires |nodes| == NODES && 0 < c < NODES && 0 <= q < NODES && c != q && 0 <= m < NODES
    ensures var n := Hang(nodes, c, q)[m];
            && n.used == nodes[m].used && n.dir == nodes[m].dir && n.readonly == nodes[m].readonly
            && n.name == nodes[m].name && n.parent == (if m == c then q else nodes[m].parent)
            && n.next == (if m == c then nodes[q].first else nodes[m].next)
              && n.first == (if m == q then c else nodes[m].first)
  {
  }

  /** Apart from the links of c and q themselves nothing changes, also when a node is hung below itself. */
  lemma HangElse(nodes: seq<Node>, c: int, q: int, m: int)
    requires |nodes| == NODES && 0 < c < NODES && 0 <= q < NODES && 0 <= m < NODES
    ensures var n := Hang(nodes, c, q)[m];
            && n.used == nodes[m].used && n.dir == nodes[m].dir && n.readonly == nodes[m].readonly
            && n.name == nodes[m].name && n.parent == if m == c then q else nodes[m].parent
  {
  }

  lemma ConsTail(c: int, ks: seq<int>, i: nat)
    requires i <= |ks|
    ensures ([c] + ks)[i + 1..] == ks[i..]
  {
  }

  lemma HangChain(nodes: seq<Node>, ks: seq<int>, c: int, q: int)
    requires |nodes| == NODES && 0 < c < NODES && 0 <= q < NODES && c != q && nodes[c].used && Chain(nodes, ks, q)
    requires c !in ks && q !in ks && FreshName(nodes, ks, nodes[c].name)
    ensures Chain(Hang(nodes, c, q), [c] + ks, q)
  {
    var ks', nodes' := [c] + ks, Hang(nodes, c, q);
    HangFields(nodes, c, q, q);
    forall i | 0 <= i < |ks'|
      ensures 0 < ks'[i] < NODES && nodes'[ks'[i]].used && nodes'[ks'[i]].parent == q
              && nodes'[ks'[i]].next == Head(ks'[i + 1..])
      ensures nodes'[ks'[i]].name == nodes[ks'[i]].name
    {
      HangFields(nodes, c, q, ks'[i]);
      ConsTail(c, ks, i);
    }
    forall i, j | 0 <= i < j < |ks'| ensures ks'[i] != ks'[j] && nodes'[ks'[i]].name != nodes'[ks'[j]].name {
      assert ks'[j] == ks[j - 1];
    }
  }

  /** Hanging an unlisted node under a directory that has no child of its name. */
  lemma Link(nodes: seq<Node>, kids: Kids, c: int, q: int)
    requires Linked(nodes, kids, c) && 0 < c < NODES && nodes[c].used && 0 <= q < NODES && q != c
    requires nodes[q].used && nodes[q].dir && FreshName(nodes, kids[q], nodes[c].name)
    requires q !in kids[q]
    ensures Linked(Hang(nodes, c, q), kids[q := [c] + kids[q]], 0)
  {
    var nodes', kids' := Hang(nodes, c, q), kids[q := [c] + kids[q]];
    forall e | 0 <= e < NODES ensures Chained(nodes', kids', e) && 0 !in kids'[e] {
      LinkChained(nodes, kids, c, q, e);
    }
    forall m | 0 < m < NODES && nodes'[m].used ensures Listed(nodes', kids', m) {
      if m != c {
        assert Listed(nodes, kids, m);
      }
    }
  }

  lemma LinkChained(nodes: seq<Node>, kids: Kids, c: int, q: int, e: int)
    requires Linked(nodes, kids, c) && 0 < c < NODES && nodes[c].used && 0 <= q < NODES && q != c && 0 <= e < NODES
    requires nodes[q].used && nodes[q].dir && FreshName(nodes, kids[q], nodes[c].name)
    requires q !in kids[q]
    ensures var kids' := kids[q := [c] + kids[q]]; Chained(Hang(nodes, c, q), kids', e) && 0 !in kids'[e]
  {
    assert Chained(nodes, kids, e) && Chained(nodes, kids, q);
    if e == q {
      HangChain(nodes, kids[q], c, q);
    } else if nodes[e].used {
      var r := nodes[c := nodes[c].(parent := q, next := nodes[q].first)];
      if e == c {
        ChainKept(nodes, r, kids[e], e);
      } else {
        ChainWithout(nodes, kids[e], e, c, r[c]);
      }
      ChainFirst(r, kids[e], e, q, c);
    }
  }

  /** A new first child of q matters only to the list of q. */
  lemma ChainFirst(nodes: seq<Node>, ks: seq<int>, e: int, q: int, c: int)
    requires |nodes| == NODES && 0 <= e < NODES && 0 <= q < NODES && e != q && Chain(nodes, ks, e)
    ensures Chain(nodes[q := nodes[q].(first := c)], ks, e)
  {
  }

  // ---------------------------------------------------------------- the operations on trees

  lemma {:induction false} NoLoop(nodes: seq<Node>, x: int, k: nat)
    requires |nodes| == NODES && 0 < x < NODES && nodes[x].parent == x
    ensures !Climb(nodes, x, 0, k)
    decreases k
  {
    if k > 0 {
      NoLoop(nodes, x, k - 1);
    }
  }

  /** Nobody is its own child. */
  lemma NotOwnChild(nodes: seq<Node>, kids: Kids, q: int)
    requires Linked(nodes, kids, 0) && Used(nodes, q) && Under(nodes, q, 0)
    ensures q !in kids[q] && (q > 0 ==> nodes[q].parent != q)
  {
    var k: nat :| Climb(nodes, q, 0, k);
    assert Chained(nodes, kids, q);
    if q > 0 && nodes[q].parent == q {
      NoLoop(nodes, q, k);
    }
  }

  /** What a climb from a node in use meets is in use. */
  lemma {:induction false} ClimbUsed(nodes: seq<Node>, kids: Kids, x: int, a: int, k: nat)
    requires Tree(nodes, kids) && Used(nodes, x) && Climb(nodes, x, a, k)
    ensures Used(nodes, a)
    decreases k
  {
    if k > 0 {
      assert Listed(nodes, kids, x);
      ClimbUsed(nodes, kids, nodes[x].parent, a, k - 1);
    }
  }

  /** Where a child sits in its parent's list. */
  lemma Position(nodes: seq<Node>, kids: Kids, c: int) returns (i: nat)
    requires Tree(nodes, kids) && Used(nodes, c) && c != 0
    ensures 0 <= nodes[c].parent < NODES && Child(kids, nodes[c].parent, i) && kids[nodes[c].parent][i] == c
    ensures nodes[c].parent != c && Chain(nodes, kids[nodes[c].parent], nodes[c].parent)
  {
    var d := nodes[c].parent;
    assert Listed(nodes, kids, c) && Chained(nodes, kids, d);
    NotOwnChild(nodes, kids, c);
    i :| 0 <= i < |kids[d]| && kids[d][i] == c;
  }

  lemma SameParents(nodes: seq<Node>, nodes': seq<Node>, x: int)
    requires |nodes| == NODES && |nodes'| == NODES && Under(nodes, x, 0)
    requires forall m | 0 <= m < NODES :: nodes'[m].parent == nodes[m].parent
    ensures Under(nodes', x, 0)
  {
    var k: nat :| Climb(nodes, x, 0, k);
    ClimbSame(nodes, nodes', x, 0, k);
  }

  lemma {:induction false} ClimbSame(nodes: seq<Node>, nodes': seq<Node>, x: int, a: int, k: nat)
    requires |nodes| == NODES && |nodes'| == NODES && Climb(nodes, x, a, k)
    requires forall m | 0 <= m < NODES :: nodes'[m].parent == nodes[m].parent
    ensures Climb(nodes', x, a, k)
    decreases k
  {
    if k > 0 {
      ClimbSame(nodes, nodes', nodes[x].parent, a, k - 1);
    }
  }

  lemma RemoveLinked(nodes: seq<Node>, kids: Kids, c: int, i: nat)
    requires Tree(nodes, kids) && Used(nodes, c) && c != 0 && kids[c] == []
    requires 0 <= nodes[c].parent < NODES && nodes[c].parent != c
    requires Child(kids, nodes[c].parent, i) && kids[nodes[c].parent][i] == c
             && Chain(nodes, kids[nodes[c].parent], nodes[c].parent)
    ensures var d := nodes[c].parent;
            Linked(Bypass(nodes, kids, d, i)[c := nodes[c].(used := false)], kids[d := Without(kids[d], i)], 0)
  {
    var d := nodes[c].parent;
    Unlink(nodes, kids, d, i, c, nodes[c].(used := false));
    RootUnlisted(Bypass(nodes, kids, d, i)[c := nodes[c].(used := false)], kids[d := Without(kids[d], i)], c);
  }

  lemma RootUnlisted(nodes: seq<Node>, kids: Kids, c: int)
    requires Linked(nodes, kids, c) && (0 <= c < NODES ==> !nodes[c].used)
    ensures Linked(nodes, kids, 0)
  {
    forall e | 0 <= e < NODES ensures 0 !in kids[e] {
      assert Chained(nodes, kids, e);
    }
  }

  /** Removing a node without children keeps the tree. */
  lemma RemoveTree(nodes: seq<Node>, kids: Kids, c: int, i: nat)
    requires Tree(nodes, kids) && Used(nodes, c) && c != 0 && kids[c] == []
    requires 0 <= nodes[c].parent < NODES && nodes[c].parent != c
    requires Child(kids, nodes[c].parent, i) && kids[nodes[c].parent][i] == c
             && Chain(nodes, kids[nodes[c].parent], nodes[c].parent)
    ensures var d := nodes[c].parent;
            Tree(Bypass(nodes, kids, d, i)[c := nodes[c].(used := false)], kids[d := Without(kids[d], i)])
  {
    var d := nodes[c].parent;
    var nodes' := Bypass(nodes, kids, d, i)[c := nodes[c].(used := false)];
    RemoveLinked(nodes, kids, c, i);
    BypassDir(nodes, kids, d, i);
    forall n | 0 <= n < NODES && nodes'[n].used ensures Under(nodes', n, 0) {
      SameParents(nodes, nodes', n);
    }
  }

  /** A new node, before it has been linked. */
  lemma AllocLinked(nodes: seq<Node>, kids: Kids, c: int, n: Node)
    requires Tree(nodes, kids) && 0 < c < NODES && !nodes[c].used && n.used && n.first == -1
    ensures kids[c] == [] && Linked(nodes[c := n], kids, c)
  {
    var nodes' := nodes[c := n];
    assert Chained(nodes, kids, c);
    forall e | 0 <= e < NODES ensures Chained(nodes', kids, e) && c !in kids[e] {
      assert Chained(nodes, kids, e);
      if e != c && nodes[e].used {
        ChainWithout(nodes, kids[e], e, c, n);
      }
    }
    forall m | 0 < m < NODES && nodes'[m].used && m != c ensures Listed(nodes', kids, m) {
      assert Listed(nodes, kids, m);
    }
  }

  /** Hanging a new node under a directory keeps the tree. */
  lemma AddTree(nodes: seq<Node>, kids: Kids, c: int, n: Node, q: int)
    requires Tree(nodes, kids) && 0 < c < NODES && !nodes[c].used && n.used && n.first == -1
    requires Used(nodes, q) && nodes[q].dir && FreshName(nodes, kids[q], n.name)
    ensures Tree(Hang(nodes[c := n], c, q), kids[q := [c] + kids[q]])
  {
    var nodes1 := nodes[c := n];
    var nodes' := Hang(nodes1, c, q);
    AllocLinked(nodes, kids, c, n);
    NotOwnChild(nodes, kids, q);
    assert FreshName(nodes1, kids[q], n.name);
    Link(nodes1, kids, c, q);
    forall x | 0 <= x < NODES && nodes'[x].used ensures Under(nodes', x, 0) {
      if x == c {
        var k: nat :| Climb(nodes, q, 0, k);
        NotUnderUnused(nodes, kids, q, c);
        ClimbKept(nodes, nodes', c, q, 0, k);
        var j: nat :| Climb(nodes', q, 0, j);
        assert Climb(nodes', c, 0, j + 1);
      } else {
        var k: nat :| Climb(nodes, x, 0, k);
        NotUnderUnused(nodes, kids, x, c);
        ClimbKept(nodes, nodes', c, x, 0, k);
      }
    }
  }

  lemma NotUnderUnused(nodes: seq<Node>, kids: Kids, x: int, c: int)
    requires Tree(nodes, kids) && Used(nodes, x) && !Used(nodes, c)
    ensures !Under(nodes, x, c)
  {
    if Under(nodes, x, c) {
      var k: nat :| Climb(nodes, x, c, k);
      ClimbUsed(nodes, kids, x, c, k);
    }
  }

  /** The nodes after c has been taken from its parent d and hung under q with a new name. */
  function Moved(nodes: seq<Node>, kids: Kids, d: int, i: nat, c: int, name: seq<char>, q: int): (r: seq<Node>)
    requires |nodes| == NODES && Child(kids, d, i) && d < NODES && forall j | 0 <= j < |kids[d]| ::
             0 <= kids[d][j] < NODES
    requires 0 <= c < NODES && 0 <= q < NODES
  {
    Hang(Bypass(nodes, kids, d, i)[c := nodes[c].(parent := -1, next := -1, name := name)], c, q)
  }

  function MovedKids(kids: Kids, d: int, i: nat, c: int, q: int): Kids
    requires Child(kids, d, i) && 0 <= q < |kids|
  {
    var kids1 := kids[d := Without(kids[d], i)];
    kids1[q := [c] + kids1[q]]
  }

  /** c is the i-th child of its parent, q a directory in use outside its subtree without a child of the new name. */
  /** Node c, the i-th child of its parent, may leave it for q under this name. */
  ghost predicate Leaves(nodes: seq<Node>, kids: Kids, c: int, i: nat, name: seq<char>, q: int) {
    && Tree(nodes, kids) && Used(nodes, c) && c != 0
    && 0 <= nodes[c].parent < NODES && nodes[c].parent != c && Child(kids, nodes[c].parent, i)
    && kids[nodes[c].parent][i] == c && Chain(nodes, kids[nodes[c].parent], nodes[c].parent)
    && Used(nodes, q) && nodes[q].dir && FreshName(nodes, kids[q], name)
  }

  ghost predicate Movable(nodes: seq<Node>, kids: Kids, c: int, i: nat, name: seq<char>, q: int) {
    Leaves(nodes, kids, c, i, name, q) && !Under(nodes, q, c)
  }

  lemma MoveLinked(nodes: seq<Node>, kids: Kids, c: int, i: nat, name: seq<char>, q: int)
    requires Movable(nodes, kids, c, i, name, q)
    ensures Linked(Moved(nodes, kids, nodes[c].parent, i, c, name, q), MovedKids(kids, nodes[c].parent, i, c, q), 0)
  {
    var d, n := nodes[c].parent, nodes[c].(parent := -1, next := -1, name := name);
    Unlink(nodes, kids, d, i, c, n);
    BypassDir(nodes, kids, d, i);
    assert Climb(nodes, c, c, 0);
    NotOwnChild(nodes, kids, q);
    MoveFresh(nodes, kids, d, i, c, n, q);
    Link(Bypass(nodes, kids, d, i)[c := n], kids[d := Without(kids[d], i)], c, q);
  }

  lemma MovedFields(nodes: seq<Node>, kids: Kids, c: int, i: nat, name: seq<char>, q: int)
    requires Leaves(nodes, kids, c, i, name, q)
    ensures var nodes' := Moved(nodes, kids, nodes[c].parent, i, c, name, q);
            && |nodes'| == NODES && nodes'[c].parent == q && nodes'[c].name == name
            && nodes'[c].used == nodes[c].used && nodes'[c].dir == nodes[c].dir && Others(nodes, nodes', c)
  {
    BypassDir(nodes, kids, nodes[c].parent, i);
    var gone := Bypass(nodes, kids, nodes[c].parent, i);
    forall m | 0 <= m < NODES
      ensures var n := Moved(nodes, kids, nodes[c].parent, i, c, name, q)[m];
              && n.used == nodes[m].used && n.dir == nodes[m].dir && n.readonly == nodes[m].readonly
              && n.parent == (if m == c then q else nodes[m].parent)
                && n.name == (if m == c then name else nodes[m].name)
    {
      HangElse(gone[c := nodes[c].(parent := -1, next := -1, name := name)], c, q, m);
    }
  }

  /** Moving a node, with all that hangs below it, to a directory outside its own subtree keeps the tree. */
  lemma MoveTree(nodes: seq<Node>, kids: Kids, c: int, i: nat, name: seq<char>, q: int)
    requires Movable(nodes, kids, c, i, name, q)
    ensures Tree(Moved(nodes, kids, nodes[c].parent, i, c, name, q), MovedKids(kids, nodes[c].parent, i, c, q))
  {
    MoveLinked(nodes, kids, c, i, name, q);
    MovedFields(nodes, kids, c, i, name, q);
    var nodes' := Moved(nodes, kids, nodes[c].parent, i, c, name, q);
    forall x | 0 <= x < NODES && nodes'[x].used ensures Under(nodes', x, 0) {
      UnderMoved(nodes, nodes', c, x, q);
    }
  }

  // ---------------------------------------------------------------- moving into the own subtree

  lemma {:induction false} ClimbOn(nodes: seq<Node>, x: int, a: int, b: int, j: nat, k: nat)
    requires |nodes| == NODES && j <= k && Climb(nodes, x, a, j) && Climb(nodes, x, b, k)
    ensures Climb(nodes, a, b, k - j)
    decreases j
  {
    if j > 0 {
      ClimbOn(nodes, nodes[x].parent, a, b, j - 1, k - 1);
    }
  }

  /** Who climbs back to where he was never reaches the root. */
  lemma {:induction false} CycleNever(nodes: seq<Node>, c: int, n: nat, k: nat)
    requires |nodes| == NODES && n > 0 && Climb(nodes, c, c, n)
    ensures !Climb(nodes, c, 0, k)
    decreases k
  {
    if Climb(nodes, c, 0, k) {
      if k < n {
        ClimbOn(nodes, c, 0, c, k, n);
      } else {
        ClimbOn(nodes, c, c, 0, n, k);
        CycleNever(nodes, c, n, k - n);
      }
    }
  }

  lemma CutOff(nodes: seq<Node>, nodes': seq<Node>, c: int, q: int)
    requires |nodes| == NODES && |nodes'| == NODES && 0 < c < NODES && Under(nodes, q, c) && nodes'[c].parent == q
    requires forall m | 0 <= m < NODES && m != c :: nodes'[m].parent == nodes[m].parent
    ensures !Under(nodes', c, 0)
  {
    var j: nat :| Climb(nodes, q, c, j);
    ClimbKept(nodes, nodes', c, q, c, j);
    var k: nat :| Climb(nodes', q, c, k);
    assert Climb(nodes', c, c, k + 1);
    forall m: nat ensures !Climb(nodes', c, 0, m) {
      CycleNever(nodes', c, k + 1, m);
    }
  }

  /** A move keeps the tree if and only if the new parent lies outside the subtree of the node; a node moved into its
      own subtree can no longer be reached from the root, whatever lists one takes the links for. */
  lemma MoveTreeIff(nodes: seq<Node>, kids: Kids, c: int, i: nat, name: seq<char>, q: int)
    requires Leaves(nodes, kids, c, i, name, q)
    ensures var d := nodes[c].parent;
            var nodes' := Moved(nodes, kids, d, i, c, name, q);
            if Under(nodes, q, c) then !Under(nodes', c, 0) && forall ks: Kids :: !Tree(nodes', ks)
            else Tree(nodes', MovedKids(kids, d, i, c, q))
  {
    if Under(nodes, q, c) {
      var nodes' := Moved(nodes, kids, nodes[c].parent, i, c, name, q);
      MovedFields(nodes, kids, c, i, name, q);
      CutOff(nodes, nodes', c, q);
    } else {
      MoveTree(nodes, kids, c, i, name, q);
    }
  }

  lemma MoveFresh(nodes: seq<Node>, kids: Kids, d: int, i: nat, c: int, n: Node, q: int)
    requires Leaving(nodes, kids, d, i, c, n) && 0 <= q < NODES && q != c && q !in kids[q]
    requires nodes[q].used && FreshName(nodes, kids[q], n.name)
    ensures var kids1 := kids[d := Without(kids[d], i)];
            FreshName(Bypass(nodes, kids, d, i)[c := n], kids1[q], n.name) && q !in kids1[q]
  {
    var kids1 := kids[d := Without(kids[d], i)];
    BypassDir(nodes, kids, d, i);
    UnlinkChained(nodes, kids, d, i, c, n, q);
    if q == d {
      forall j | 0 <= j < |kids[d]| - 1 ensures Without(kids[d], i)[j] in kids[d] {
        WithoutAt(kids[d], i, j);
      }
    }
  }

  // ---------------------------------------------------------------- looking up

  /** The first node of a list with a name, or -1. */
  function FindIn(nodes: seq<Node>, ks: seq<int>, name: seq<char>): (r: int)
    requires |nodes| == NODES && forall i | 0 <= i < |ks| :: 0 <= ks[i] < NODES
    ensures -1 <= r < NODES
    ensures r >= 0 ==> r in ks && nodes[r].name == name
    ensures r < 0 <==> FreshName(nodes, ks, name)
  {
    if ks == [] then -1 else if nodes[ks[0]].name == name then ks[0] else FindIn(nodes, ks[1..], name)
  }

  lemma {:induction false} FindInUnique(nodes: seq<Node>, ks: seq<int>, c: int)
    requires |nodes| == NODES && (forall i | 0 <= i < |ks| :: 0 <= ks[i] < NODES) && c in ks
    requires forall i, j | 0 <= i < j < |ks| :: nodes[ks[i]].name != nodes[ks[j]].name
    ensures FindIn(nodes, ks, nodes[c].name) == c
  {
    if ks[0] != c {
      assert c in ks[1..];
      var i :| 0 <= i < |ks| && ks[i] == c;
      FindInUnique(nodes, ks[1..], c);
    }
  }

  /** The child of d with a name; a file has none. */
  ghost function Find(nodes: seq<Node>, kids: Kids, d: int, name: seq<char>): (r: int)
    requires Tree(nodes, kids) && Used(nodes, d)
    ensures r == -1 || (Used(nodes, r) && r > 0 && nodes[r].parent == d && nodes[r].name == name && r in kids[d])
  {
    assert Chained(nodes, kids, d);
    if !nodes[d].dir then -1 else FindIn(nodes, kids[d], name)
  }

  /** The node that a path of components leads to from d, or -1. */
  ghost function Walk(nodes: seq<Node>, kids: Kids, d: int, parts: seq<seq<char>>): (r: int)
    requires Tree(nodes, kids) && Used(nodes, d)
    ensures r == -1 || Used(nodes, r)
    decreases |parts|
  {
    if parts == [] then d
    else
      var c := Find(nodes, kids, d, parts[0]);
      if c < 0 then -1 else Walk(nodes, kids, c, parts[1..])
  }

  /** What a walk meets lies above its end. */
  lemma {:induction false} WalkUnder(nodes: seq<Node>, kids: Kids, d: int, parts: seq<seq<char>>)
    requires Tree(nodes, kids) && Used(nodes, d) && Walk(nodes, kids, d, parts) >= 0
    ensures Under(nodes, Walk(nodes, kids, d, parts), d)
    decreases |parts|
  {
    if parts == [] {
      assert Climb(nodes, d, d, 0);
    } else {
      var c, x := Find(nodes, kids, d, parts[0]), Walk(nodes, kids, d, parts);
      WalkUnder(nodes, kids, c, parts[1..]);
      var k: nat :| Climb(nodes, x, c, k);
      assert Climb(nodes, d, d, 0);
      assert Climb(nodes, c, d, 1);
      ClimbTrans(nodes, x, c, d, k, 1);
    }
  }

  /** Every node but c is what and where it was; only the links between siblings may differ. */
  ghost predicate Others(nodes: seq<Node>, nodes': seq<Node>, c: int) {
    && |nodes| == |nodes'| == NODES
    && forall m | 0 <= m < NODES && m != c ::
         && nodes'[m].used == nodes[m].used && nodes'[m].dir == nodes[m].dir && nodes'[m].readonly == nodes[m].readonly
         && nodes'[m].parent == nodes[m].parent && nodes'[m].name == nodes[m].name
  }

  /** Lookups that avoid node c give the same after c has been added or moved. */
  ghost predicate Kept(nodes: seq<Node>, kids: Kids, nodes': seq<Node>, kids': Kids, c: int) {
    && Tree(nodes, kids) && Tree(nodes', kids') && 0 < c < NODES
    && forall m | 0 <= m < NODES && nodes[m].used && m != c ::
         nodes'[m].used && nodes'[m].dir == nodes[m].dir && nodes'[m].parent == nodes[m].parent
           && nodes'[m].name == nodes[m].name
  }

  lemma FindKept(nodes: seq<Node>, kids: Kids, nodes': seq<Node>, kids': Kids, c: int, d: int, name: seq<char>)
    requires Kept(nodes, kids, nodes', kids', c) && Used(nodes, d) && d != c
    requires Find(nodes, kids, d, name) >= 0 && Find(nodes, kids, d, name) != c
    ensures Find(nodes', kids', d, name) == Find(nodes, kids, d, name)
  {
    var x := Find(nodes, kids, d, name);
    assert Listed(nodes', kids', x) && Chained(nodes', kids', d);
    FindInUnique(nodes', kids'[d], x);
  }

  lemma {:induction false} WalkKept(nodes: seq<Node>, kids: Kids, nodes': seq<Node>, kids': Kids, c: int, d: int,
                                    parts: seq<seq<char>>)
    requires Kept(nodes, kids, nodes', kids', c) && Used(nodes, d) && d != c && Walk(nodes, kids, d, parts) >= 0
    requires !Under(nodes, Walk(nodes, kids, d, parts), c)
    ensures Walk(nodes', kids', d, parts) == Walk(nodes, kids, d, parts)
    decreases |parts|
  {
    WalkUnder(nodes, kids, d, parts);
    if parts != [] {
      var x := Find(nodes, kids, d, parts[0]);
      WalkUnder(nodes, kids, x, parts[1..]);
      FindKept(nodes, kids, nodes', kids', c, d, parts[0]);
      WalkKept(nodes, kids, nodes', kids', c, x, parts[1..]);
    }
  }

  lemma {:induction false} WalkAppend(nodes: seq<Node>, kids: Kids, d: int, parts: seq<seq<char>>, leaf: seq<char>)
    requires Tree(nodes, kids) && Used(nodes, d) && Walk(nodes, kids, d, parts) >= 0
    ensures Walk(nodes, kids, d, parts + [leaf]) == Find(nodes, kids, Walk(nodes, kids, d, parts), leaf)
    decreases |parts|
  {
    if parts == [] {
      assert ([] + [leaf])[1..] == [];
    } else {
      assert (parts + [leaf])[1..] == parts[1..] + [leaf];
      WalkAppend(nodes, kids, Find(nodes, kids, d, parts[0]), parts[1..], leaf);
    }
  }

  /** After a node has been added or moved under q, the path of q followed by the node's name leads to it. */
  lemma LeadsTo(nodes: seq<Node>, kids: Kids, nodes': seq<Node>, kids': Kids, c: int, q: int, parts: seq<seq<char>>)
    requires Kept(nodes, kids, nodes', kids', c) && Used(nodes, q) && Walk(nodes, kids, 0, parts) == q
    requires !Under(nodes, q, c) && nodes'[c].used && nodes'[c].parent == q && nodes'[q].dir
    ensures Walk(nodes', kids', 0, parts + [nodes'[c].name]) == c
  {
    WalkKept(nodes, kids, nodes', kids', c, 0, parts);
    WalkAppend(nodes', kids', 0, parts, nodes'[c].name);
    assert Listed(nodes', kids', c) && Chained(nodes', kids', q);
    FindInUnique(nodes', kids'[q], c);
  }
}

/** Why the directory graph stays a tree when the writer replaces a file or adds an entry to a directory. */
module MiniFsDirs {
  import opened Common
  import opened MiniFs
  import opened MiniFsTree
  import opened MiniFsSpec
  import opened MiniFsCheck
  import opened MiniFsGrow
  import opened MiniFsRepair

  // ---------------------------------------------------------------- graphs that differ in metadata only

  /** Inodes in use keep what directories know about them. */
  ghost predicate NodesKept(inodes: seq<Inode>, inodes': seq<Inode>) {
    && |inodes| == |inodes'| == INODES
    && forall i | 0 <= i < INODES && inodes[i].used != 0 :: SameNode(inodes[i], inodes'[i])
  }

  lemma {:induction false} EntriesKept(inodes: seq<Inode>, inodes': seq<Inode>, dir: int, data: seq<byte>, n: nat)
    requires NodesKept(inodes, inodes') && 32 * n <= |data| && Entries(inodes, dir, data, n).Some?
    ensures Entries(inodes', dir, data, n) == Entries(inodes, dir, data, n)
    decreases n
  {
    if n > 0 {
      EntriesKept(inodes, inodes', dir, data, n - 1);
    }
  }

  /** A directory that is still there, with the same bytes, has the same entries. */
  lemma KidsKept(img: Image, img': Image, l: Layout, inodes: seq<Inode>, inodes': seq<Inode>, i: nat)
    requires l.Holds(img) && l.Holds(img') && Packed(inodes) && Packed(inodes') && NodesKept(inodes, inodes')
    requires i < INODES && inodes'[i] == inodes[i] && Kids(img, l, inodes, i).Some?
    requires ReadFile(img', l, inodes[i]) == ReadFile(img, l, inodes[i])
    ensures Kids(img', l, inodes', i) == Kids(img, l, inodes, i)
  {
    EntriesKept(inodes, inodes', i, ReadFile(img, l, inodes[i]).value, inodes[i].size / 32);
  }

  lemma {:induction false} BelowKept(t: Tree, t': Tree, x: int, k: nat)
    requires t.Consistent() && |t'.inodes| == INODES && NodesKept(t.inodes, t'.inodes) && TreeOk(t)
    requires 0 <= x < INODES && t.inodes[x].used != 0 && Below(t, x, ROOT, k)
    ensures Below(t', x, ROOT, k)
    decreases k
  {
    if k > 0 {
      assert Hangs(t, x);
      BelowKept(t, t', t.inodes[x].parent, k - 1);
    }
  }

  /** Entries have only been added, and every directory in use can still be read. */
  ghost predicate KidsKeptAll(t: Tree, t': Tree)
    requires t.Consistent() && t'.Consistent()
  {
    forall i | 0 <= i < INODES && t.inodes[i].used != 0 && t.kids[i].Some? ::
      t'.kids[i].Some? && t.kids[i].value <= t'.kids[i].value
  }

  lemma HangsKept(t: Tree, t': Tree, i: int)
    requires t.Consistent() && t'.Consistent() && NodesKept(t.inodes, t'.inodes) && TreeOk(t) && KidsKeptAll(t, t')
    requires 0 <= i < INODES && t.inodes[i].used != 0
    ensures Hangs(t', i)
  {
    assert Hangs(t, i);
    var k: nat :| Below(t, i, ROOT, k);
    BelowKept(t, t', i, k);
    if i != ROOT {
      var p := t.inodes[i].parent;
      assert t.kids[p].value <= t'.kids[p].value;
    }
  }

  /** A tree stays a tree when only file contents change. */
  lemma TreeOkKept(t: Tree, t': Tree)
    requires t.Consistent() && t'.Consistent() && TreeOk(t) && NodesKept(t.inodes, t'.inodes)
    requires forall i | 0 <= i < INODES && t.inodes[i].used == 0 :: t'.inodes[i].used == 0
    requires forall i | 0 <= i < INODES && t.inodes[i].used != 0 :: t'.kids[i] == t.kids[i]
    ensures TreeOk(t')
  {
    forall i | 0 <= i < INODES && t'.inodes[i].used != 0 ensures Hangs(t', i) {
      assert t.inodes[i].used != 0;
      HangsKept(t, t', i);
    }
  }

  /** A tree stays a tree when directory `dir` gains an entry for a new inode c without entries of its own. */
  lemma TreeOkGrown(t: Tree, t': Tree, dir: int, c: int)
    requires t.Consistent() && t'.Consistent() && TreeOk(t) && NodesKept(t.inodes, t'.inodes)
    requires 0 <= dir < INODES && t.inodes[dir].used != 0 && t.inodes[dir].typ == DIR
    requires 0 <= c < INODES && c != ROOT && t.inodes[c].used == 0
    requires t'.inodes[c].used != 0 && t'.inodes[c].parent == dir
    requires t'.inodes[c].typ == DIR ==> t'.kids[c].Some?
    requires t'.kids[c].Some? ==> t'.kids[c].value == []
    requires forall i | 0 <= i < INODES && t.inodes[i].used == 0 && i != c :: t'.inodes[i].used == 0
    requires forall i | 0 <= i < INODES && t.inodes[i].used != 0 && i != dir :: t'.kids[i] == t.kids[i]
    requires t.kids[dir].Some? && t'.kids[dir] == Some(t.kids[dir].value + [c])
    ensures TreeOk(t')
  {
    assert KidsKeptAll(t, t');
    forall i | 0 <= i < INODES && t'.inodes[i].used != 0 ensures Hangs(t', i) {
      if i == c {
        HangsKept(t, t', dir);
        var k: nat :| Below(t', dir, ROOT, k);
        assert Below(t', c, ROOT, k + 1);
        assert c in t'.kids[dir].value;
      } else {
        HangsKept(t, t', i);
      }
    }
  }

  // ---------------------------------------------------------------- names

  function Zeros(n: nat): (z: seq<byte>)
    ensures |z| == n && forall k | 0 <= k < n :: z[k] == 0
  {
    seq(n, k => 0)
  }

  lemma {:induction false} CNamePadded(name: seq<byte>, n: nat)
    ensures CName(name + Zeros(n)) == CName(name)
  {
    if name != [] {
      assert (name + Zeros(n))[1..] == name[1..] + Zeros(n);
      CNamePadded(name[1..], n);
    }
  }

  lemma {:induction false} CNameWhole(name: seq<byte>)
    requires 0 !in name
    ensures CName(name) == name
  {
    if name != [] {
      assert forall k | 0 <= k < |name[1..]| :: name[1..][k] == name[k + 1];
      CNameWhole(name[1..]);
      assert name == [name[0]] + name[1..];
    }
  }

  /** A name padded to the 24 bytes of a directory record. */
  function NameField(name: seq<byte>): (f: seq<byte>)
    requires |name| < 24
    ensures |f| == 24 && f[23] == 0
  {
    name + Zeros(24 - |name|)
  }

  /** A directory record: inode number, type, padded name, 5 bytes of padding. */
  function MakeRecord(ino: nat, typ: byte, name: seq<byte>): (rec: seq<byte>)
    requires ino < INODES && |name| < 24
    ensures |rec| == 32
  {
    [ino % 256, ino / 256, typ] + NameField(name) + Zeros(5)
  }

  lemma SliceMiddle(a: seq<byte>, f: seq<byte>, z: seq<byte>)
    requires |a| == 3 && |f| == 24 && |z| == 5
    ensures (a + f + z)[3..27] == f
    ensures (a + f + z)[0] == a[0] && (a + f + z)[1] == a[1] && (a + f + z)[2] == a[2]
  {
  }

  lemma MakeRecordHeader(ino: nat, typ: byte, name: seq<byte>)
    requires ino < INODES && |name| < 24
    ensures U16(MakeRecord(ino, typ, name), 0) == ino && MakeRecord(ino, typ, name)[2] == typ
  {
    SliceMiddle([ino % 256, ino / 256, typ], NameField(name), Zeros(5));
  }

  lemma MakeRecordName(ino: nat, typ: byte, name: seq<byte>)
    requires ino < INODES && |name| < 24
    ensures MakeRecord(ino, typ, name)[3..27] == NameField(name)
  {
    SliceMiddle([ino % 256, ino / 256, typ], NameField(name), Zeros(5));
  }

  lemma NameFieldName(name: seq<byte>)
    requires |name| < 24
    ensures 0 in NameField(name) && CName(NameField(name)) == CName(name)
  {
    assert NameField(name) == name + Zeros(24 - |name|) && NameField(name)[23] == 0;
    CNamePadded(name, 24 - |name|);
  }

  /** The names that a directory with these entries can take in. */
  predicate GoodName(name: seq<byte>, es: seq<Entry>) {
    ValidName(CName(name)) && Fresh(CName(name), es)
  }

  /** Names free of '/' and NUL that are not in the directory yet are good. */
  lemma PlainNameGood(name: seq<byte>, es: seq<Entry>)
    requires name != [] && ValidUtf8(name) && 0 !in name && 0x2F !in name && Fresh(name, es)
    ensures GoodName(name, es) && CName(name) == name
  {
    CNameWhole(name);
  }

  lemma {:induction false} EntriesPrefix(inodes: seq<Inode>, dir: int, data: seq<byte>, more: seq<byte>, n: nat)
    requires |inodes| == INODES && 32 * n <= |data|
    ensures Entries(inodes, dir, data + more, n) == Entries(inodes, dir, data, n)
    decreases n
  {
    if n > 0 {
      EntriesPrefix(inodes, dir, data, more, n - 1);
      assert Record(data + more, n - 1) == Record(data, n - 1);
    }
  }

  /** Appending a record for a new inode adds an entry, or makes the directory unreadable when the name is not good. */
  lemma EntriesAppend(inodes: seq<Inode>, dir: int, data: seq<byte>, m: nat, ino: nat, typ: byte, name: seq<byte>)
    requires |inodes| == INODES && |data| == 32 * m && 0 < ino < INODES && |name| < 24
    requires inodes[ino].used != 0 && inodes[ino].typ == typ && inodes[ino].parent == dir
    requires Entries(inodes, dir, data, m).Some?
    ensures var es := Entries(inodes, dir, data, m).value;
            Entries(inodes, dir, data + MakeRecord(ino, typ, name), m + 1) ==
            if GoodName(name, es) then Some(es + [Entry(CName(name), ino, typ)]) else None
  {
    var rec := MakeRecord(ino, typ, name);
    EntriesPrefix(inodes, dir, data, rec, m);
    MakeRecordHeader(ino, typ, name);
    MakeRecordName(ino, typ, name);
    NameFieldName(name);
    assert Record(data + rec, m) == rec;
  }

  /** An empty directory. */
  lemma EmptyKids(img: Image, l: Layout, inodes: seq<Inode>, i: nat)
    requires l.Holds(img) && Packed(inodes) && i < INODES
    requires inodes[i].size == 0 && inodes[i].ind == 0 && inodes[i].dbl == 0
    ensures ReadFile(img, l, inodes[i]) == Some([])
    ensures Kids(img, l, inodes, i) == if IsDir(inodes[i]) then Some([]) else None
  {
  }

  // ---------------------------------------------------------------- the whole invariant

  /** The rules about inodes and blocks, and the directories form a tree. */
  ghost predicate WellFormed(img: Image, l: Layout, inodes: seq<Inode>, bits: seq<int>) {
    && Core(img, l, inodes, bits)
    && (TreeConsistent(img, l, inodes); TreeOk(TreeOf(img, l, inodes)))
  }

  /** Replacing the contents of a file keeps the tree. */
  lemma FileReplaced(img: Image, l: Layout, inodes: seq<Inode>, bits: seq<int>, ino: nat, n: Inode, img': Image,
                     bits': seq<int>)
    requires WellFormed(img, l, inodes, bits) && ino < INODES && inodes[ino].used != 0 && inodes[ino].typ == FILE
    requires Core(img', l, inodes[ino := n], bits') && SameNode(inodes[ino], n) && Spared(img, img', l, bits)
    ensures WellFormed(img', l, inodes[ino := n], bits')
  {
    var inodes' := inodes[ino := n];
    TreeConsistent(img, l, inodes);
    TreeConsistent(img', l, inodes');
    var t, t' := TreeOf(img, l, inodes), TreeOf(img', l, inodes');
    forall i | 0 <= i < INODES && inodes[i].used != 0 ensures t'.kids[i] == t.kids[i] {
      if IsDir(inodes[i]) {
        SparedReads(img, img', l, inodes, bits, i);
        assert t.kids[i].Some?;
        KidsKept(img, img', l, inodes, inodes', i);
      }
    }
    TreeOkKept(t, t');
  }

  lemma DirBytes(img: Image, l: Layout, inodes: seq<Inode>, dir: nat)
    requires l.Holds(img) && Packed(inodes) && dir < INODES && DirEntries(img, l, inodes, dir).Some?
    ensures ReadFile(img, l, inodes[dir]).Some? && |ReadFile(img, l, inodes[dir]).value| % 32 == 0
    ensures var data := ReadFile(img, l, inodes[dir]).value;
            DirEntries(img, l, inodes, dir) == Entries(inodes, dir, data, |data| / 32)
  {
  }

  lemma BytesDir(img: Image, l: Layout, inodes: seq<Inode>, dir: nat, data: seq<byte>, m: nat)
    requires l.Holds(img) && Packed(inodes) && dir < INODES && ReadFile(img, l, inodes[dir]) == Some(data)
    requires |data| == 32 * m
    ensures DirEntries(img, l, inodes, dir) == Entries(inodes, dir, data, m)
  {
  }

  lemma NodesAddedKept(inodes: seq<Inode>, inodes2: seq<Inode>, dir: nat, c: nat, typ: int, n: Inode)
    requires NodesAdded(inodes, inodes2, dir, c, typ, n)
    ensures NodesKept(inodes, inodes2) && inodes2[dir] == n && IsDir(n)
    ensures inodes2[c].used != 0 && inodes2[c].typ == typ && inodes2[c].parent == dir
  {
  }

  /** The inodes before and after a new inode c has been added and directory `dir` rewritten as n. */
  ghost predicate NodesAdded(inodes: seq<Inode>, inodes2: seq<Inode>, dir: nat, c: nat, typ: int, n: Inode) {
    && |inodes| == INODES && dir < INODES && IsDir(inodes[dir]) && SameNode(inodes[dir], n)
    && 0 < c < INODES && c != ROOT && inodes[c].used == 0
    && inodes2 == inodes[c := Inode(1, typ, dir, 0, NoBlocks(), 0, 0)][dir := n]
  }

  /** The entries of a directory after a record has been appended to it. */
  lemma AppendedEntries(img: Image, l: Layout, inodes: seq<Inode>, dir: nat, c: nat, typ: byte, name: seq<byte>,
                        n: Inode, img2: Image, inodes2: seq<Inode>)
    requires l.Holds(img) && l.Holds(img2) && Packed(inodes) && Packed(inodes2) && |name| < 24
    requires NodesAdded(inodes, inodes2, dir, c, typ, n)
    requires DirEntries(img, l, inodes, dir).Some? && n.Packable()
    requires ReadFile(img2, l, n) == Some(ReadFile(img, l, inodes[dir]).value + MakeRecord(c, typ, name))
    ensures var es := DirEntries(img, l, inodes, dir).value;
            DirEntries(img2, l, inodes2, dir) ==
            if GoodName(name, es) then Some(es + [Entry(CName(name), c, typ)]) else None
  {
    var data := ReadFile(img, l, inodes[dir]).value;
    DirBytes(img, l, inodes, dir);
    NodesAddedKept(inodes, inodes2, dir, c, typ, n);
    var m := |data| / 32;
    BytesDir(img, l, inodes, dir, data, m);
    EntriesKept(inodes, inodes2, dir, data, m);
    EntriesAppend(inodes2, dir, data, m, c, typ, name);
    BytesDir(img2, l, inodes2, dir, data + MakeRecord(c, typ, name), m + 1);
  }

  lemma OtherKids(img: Image, l: Layout, inodes: seq<Inode>, bits: seq<int>, img2: Image, inodes2: seq<Inode>, i: nat)
    requires Core(img, l, inodes, bits) && l.Holds(img2) && Packed(inodes2) && Spared(img, img2, l, bits)
    requires NodesKept(inodes, inodes2) && i < INODES && inodes[i].used != 0 && inodes2[i] == inodes[i]
    requires IsDir(inodes[i]) ==> Kids(img, l, inodes, i).Some?
    ensures Kids(img2, l, inodes2, i) == Kids(img, l, inodes, i)
  {
    if IsDir(inodes[i]) {
      SparedReads(img, img2, l, inodes, bits, i);
      KidsKept(img, img2, l, inodes, inodes2, i);
    }
  }

  lemma TreeOkAdded(img: Image, l: Layout, inodes: seq<Inode>, img2: Image, inodes2: seq<Inode>, dir: nat, c: nat,
                    typ: byte, n: Inode)
    requires l.Holds(img) && l.Holds(img2) && Packed(inodes) && Packed(inodes2)
    requires NodesAdded(inodes, inodes2, dir, c, typ, n)
    requires TreeOf(img, l, inodes).Consistent() && TreeOk(TreeOf(img, l, inodes))
    requires TreeOf(img2, l, inodes2).Consistent() && Kids(img, l, inodes, dir).Some?
    requires forall i | 0 <= i < INODES && inodes[i].used != 0 && i != dir ::
               Kids(img2, l, inodes2, i) == Kids(img, l, inodes, i)
    requires Kids(img2, l, inodes2, dir) == Some(Kids(img, l, inodes, dir).value + [c])
    ensures TreeOk(TreeOf(img2, l, inodes2))
  {
    EmptyKids(img2, l, inodes2, c);
    TreeOkGrown(TreeOf(img, l, inodes), TreeOf(img2, l, inodes2), dir, c);
  }

  lemma InosAppend(es: seq<Entry>, e: Entry)
    ensures Inos(es + [e]) == Inos(es) + [e.ino]
  {
  }

  /** Adding an entry keeps the tree exactly when the name is good. */
  lemma ChildAdded(img: Image, l: Layout, inodes: seq<Inode>, bits: seq<int>, dir: nat, c: nat, typ: byte,
                   name: seq<byte>, n: Inode, img2: Image, inodes2: seq<Inode>, bits2: seq<int>)
    requires WellFormed(img, l, inodes, bits) && NodesAdded(inodes, inodes2, dir, c, typ, n) && |name| < 24
    requires Core(img2, l, inodes2, bits2) && Spared(img, img2, l, bits) && n.Packable()
    requires DirEntries(img, l, inodes, dir).Some?
    requires ReadFile(img2, l, n) == Some(ReadFile(img, l, inodes[dir]).value + MakeRecord(c, typ, name))
    ensures WellFormed(img2, l, inodes2, bits2) <==> GoodName(name, DirEntries(img, l, inodes, dir).value)
  {
    NodesAddedKept(inodes, inodes2, dir, c, typ, n);
    AppendedEntries(img, l, inodes, dir, c, typ, name, n, img2, inodes2);
    TreeConsistent(img, l, inodes);
    TreeConsistent(img2, l, inodes2);
    var t := TreeOf(img, l, inodes);
    var es := DirEntries(img, l, inodes, dir).value;
    if GoodName(name, es) {
      forall i | 0 <= i < INODES && inodes[i].used != 0 && i != dir
        ensures Kids(img2, l, inodes2, i) == Kids(img, l, inodes, i)
      {
        assert IsDir(inodes[i]) ==> t.kids[i].Some?;
        OtherKids(img, l, inodes, bits, img2, inodes2, i);
      }
      InosAppend(es, Entry(CName(name), c, typ));
      TreeOkAdded(img, l, inodes, img2, inodes2, dir, c, typ, n);
    } else {
      assert TreeOf(img2, l, inodes2).kids[dir].None?;
    }
  }

  // ---------------------------------------------------------------- the finished image

  /** Installing the bitmap makes the image acceptable to the checker. */
  lemma Finished(img: Image, img': Image, l: Layout, inodes: seq<Inode>, bits: seq<int>)
    requires WellFormed(img, l, inodes, bits) && SameData(img, img', l)
    requires InodeTable(img', l) == inodes && img'[l.start] == img[l.start] && Bits(img', l) == bits
    ensures CheckOk(img', l)
  {
    CheckedTree(img, l, inodes);
    RefsInRangeFrame(img, img', l, inodes, inodes);
    ReachesFrame(img, img', l, inodes, inodes);
    forall p: int ensures Total(img', l, inodes, INODES, p) == Total(img, l, inodes, INODES, p) {
      TotalFrame(img, img', l, inodes, inodes, INODES, p);
    }
  }

  /** An image that the checker accepts is a good place to start from. */
  lemma StartFrom(img: Image, l: Layout)
    requires CheckOk(img, l)
    ensures WellFormed(img, l, InodeTable(img, l), Bits(img, l))
  {
    CheckedTree(img, l, InodeTable(img, l));
  }
}

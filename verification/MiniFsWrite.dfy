/** The image writer: an object that allocates blocks and inodes, stores file contents and directory entries and
    finally installs the bitmap. */
module MiniFsWrite {
  import opened Common
  import opened MiniFs
  import opened MiniFsTree
  import opened MiniFsSpec
  import opened MiniFsCheck
  import opened MiniFsGrow
  import opened MiniFsStore
  import opened MiniFsDirs
  import opened MiniFsSession
  import MiniFsRepair

  /** A directory of a well-formed file system can be read. */
  lemma DirectoryReads(img: Image, l: Layout, inodes: seq<Inode>, bits: seq<int>, dir: nat)
    requires WellFormed(img, l, inodes, bits) && dir < INODES && IsDir(inodes[dir])
    ensures DirEntries(img, l, inodes, dir).Some?
  {
    TreeConsistent(img, l, inodes);
    assert TreeOf(img, l, inodes).kids[dir].Some?;
  }

  /** An inode without blocks references nothing. */
  lemma NoRefs(img: Image, l: Layout, n: Inode, p: int)
    requires l.Holds(img) && n.blocks == NoBlocks() && n.ind == 0 && n.dbl == 0 && p != 0
    ensures Refs(img, l, n, p) == 0
  {
    LaidSmall(img, l, []);
    assert n.blocks == Padded(Direct([]), 8);
    LaidRefs(img, l, n, [], 0, 0, [], p);
  }

  /** Storing a fresh inode in a free slot keeps every rule about inodes and blocks. */
  lemma FreshInodeSound(img: Image, l: Layout, inodes: seq<Inode>, bits: seq<int>, ino: nat, typ: int, parent: nat)
    requires Core(img, l, inodes, bits) && ino < INODES && inodes[ino].used == 0
    requires parent < INODES && IsDir(inodes[parent]) && (typ == DIR || typ == FILE)
    ensures Inode(1, typ, parent, 0, NoBlocks(), 0, 0).Packable()
    ensures forall img' | Stored(img, img', l, inodes, ino, Inode(1, typ, parent, 0, NoBlocks(), 0, 0)) ::
              Core(img', l, inodes[ino := Inode(1, typ, parent, 0, NoBlocks(), 0, 0)], bits)
                && Spared(img, img', l, bits)
  {
    var n := Inode(1, typ, parent, 0, NoBlocks(), 0, 0);
    GrownNothing(l, img, bits);
    forall p | p != 0 ensures Refs(img, l, n, p) == Occ([], p) {
      NoRefs(img, l, n, p);
    }
    forall img' | Stored(img, img', l, inodes, ino, n)
      ensures Core(img', l, inodes[ino := n], bits) && Spared(img, img', l, bits)
    {
      ReplaceKeepsCore(img, img, img', l, inodes, bits, bits, ino, n, [], bits);
    }
  }

  method FindEntry(entries: seq<Entry>, name: seq<byte>) returns (k: nat)
    ensures k <= |entries| && (k < |entries| <==> !Fresh(name, entries))
    ensures k < |entries| ==> entries[k].name == name
  {
    k := 0;
    while k < |entries| && entries[k].name != name
      invariant k <= |entries| && forall j | 0 <= j < k :: entries[j].name != name
    {
      k := k + 1;
    }
  }

  lemma SparedChain(img: Image, img1: Image, img2: Image, l: Layout, bits: seq<int>)
    requires l.Holds(img) && l.Holds(img1) && l.Holds(img2) && |bits| == l.Blocks()
    requires Spared(img, img1, l, bits) && Spared(img1, img2, l, bits)
    ensures Spared(img, img2, l, bits)
  {
  }

  lemma NodesAddedIs(inodes: seq<Inode>, inodes2: seq<Inode>, dir: nat, c: nat, typ: int)
    requires |inodes| == |inodes2| == INODES && dir < INODES && IsDir(inodes[dir])
    requires 2 <= c < INODES && inodes[c].used == 0
    requires inodes2 == inodes[c := Inode(1, typ, dir, 0, NoBlocks(), 0, 0)][dir := inodes2[dir]]
    requires SameNode(inodes[dir], inodes2[dir])
    ensures NodesAdded(inodes, inodes2, dir, c, typ, inodes2[dir])
  {
  }

  /** A fresh inode c of the given type has been stored, and the directory has gained a record for it: the whole
      invariant is kept, and the directory lists the new entry after the old ones, exactly when the name is good;
      with any other name the directory can no longer be read. */
  ghost predicate Appended(img: Image, l: Layout, inodes: seq<Inode>, dir: nat, name: seq<byte>, typ: int, c: nat,
                           img2: Image, inodes2: seq<Inode>, bits2: seq<int>)
    requires l.Holds(img) && l.Holds(img2) && dir < INODES && |name| < 24 && |inodes2| == INODES
             && inodes2[dir].Packable()
    requires |inodes| == INODES && inodes[dir].Packable() && DirEntries(img, l, inodes, dir).Some?
  {
    var es := DirEntries(img, l, inodes, dir).value;
    && 2 <= c < INODES && inodes[c].used == 0 && SameNode(inodes[dir], inodes2[dir])
    && inodes2 == inodes[c := Inode(1, typ, dir, 0, NoBlocks(), 0, 0)][dir := inodes2[dir]]
    && (WellFormed(img2, l, inodes2, bits2) <==> GoodName(name, es))
    && DirEntries(img2, l, inodes2, dir) ==
       (if GoodName(name, es) then Some(es + [Entry(CName(name), c, typ)]) else None)
  }

  /** What appending a record for a fresh inode does to a directory and to the whole invariant. */
  lemma EntryAdded(img: Image, l: Layout, inodes: seq<Inode>, bits: seq<int>, dir: nat, c: nat, typ: int,
                   name: seq<byte>, img2: Image, inodes2: seq<Inode>, bits2: seq<int>)
    requires WellFormed(img, l, inodes, bits) && dir < INODES && IsDir(inodes[dir]) && 1 <= |name| < 24
    requires 2 <= c < INODES && inodes[c].used == 0 && (typ == DIR || typ == FILE)
    requires Core(img2, l, inodes2, bits2) && Spared(img, img2, l, bits) && DirEntries(img, l, inodes, dir).Some?
    requires inodes2 == inodes[c := Inode(1, typ, dir, 0, NoBlocks(), 0, 0)][dir := inodes2[dir]]
    requires SameNode(inodes[dir], inodes2[dir])
    requires ReadFile(img2, l, inodes2[dir]) == Some(ReadFile(img, l, inodes[dir]).value + MakeRecord(c, typ, name))
    ensures Appended(img, l, inodes, dir, name, typ, c, img2, inodes2, bits2)
  {
    NodesAddedIs(inodes, inodes2, dir, c, typ);
    AppendedEntries(img, l, inodes, dir, c, typ, name, inodes2[dir], img2, inodes2);
    ChildAdded(img, l, inodes, bits, dir, c, typ, name, inodes2[dir], img2, inodes2, bits2);
  }

  // ---------------------------------------------------------------- the bitmap on disk

  /** The first n bytes of the bitmap have been stored; nothing outside the bitmap area has changed. */
  ghost predicate BitmapStored(img: Image, img': Image, l: Layout, bits: seq<int>, n: nat)
    requires l.Holds(img) && |bits| == l.Blocks() && n <= |bits|
  {
    && |img'| == |img|
    && (forall k | 0 <= k < |img| && !(l.BitmapLba() <= k < l.DataLba()) :: img'[k] == img[k])
    && (forall b | 0 <= b < n :: Bit(img', l, b) == if bits[b] != 0 then 1 else 0)
  }

  lemma BitmapStep(img: Image, img1: Image, l: Layout, bits: seq<int>, n: nat)
    requires l.Holds(img) && |bits| == l.Blocks() && n < |bits| && BitmapStored(img, img1, l, bits, n)
    ensures 0 <= l.BitmapLba() + n / 512 < |img1|
    ensures var lba := l.BitmapLba() + n / 512;
            BitmapStored(img, img1[lba := img1[lba][n % 512 := if bits[n] != 0 then 1 else 0]], l, bits, n + 1)
  {
    LayoutFits(l);
    var lba := l.BitmapLba() + n / 512;
    var img2 := img1[lba := img1[lba][n % 512 := if bits[n] != 0 then 1 else 0]];
    forall b | 0 <= b < n + 1
      ensures Bit(img2, l, b) == if bits[b] != 0 then 1 else 0
    {
      if b < n {
        assert Bit(img1, l, b) == if bits[b] != 0 then 1 else 0;
        assert b / 512 != n / 512 || b % 512 != n % 512;
      }
    }
  }

  method StoreBitmap(img: Image, l: Layout, bits: seq<int>) returns (img': Image)
    requires l.Holds(img) && |bits| == l.Blocks()
    ensures BitmapStored(img, img', l, bits, |bits|)
  {
    img' := img;
    for i := 0 to |bits|
      invariant BitmapStored(img, img', l, bits, i)
    {
      BitmapStep(img, img', l, bits, i);
      var lba := l.BitmapLba() + i / 512;
      img' := img'[lba := img'[lba][i % 512 := if bits[i] != 0 then 1 else 0]];
    }
  }

  lemma BitmapDone(img: Image, img': Image, l: Layout, bits: seq<int>)
    requires l.Holds(img) && |bits| == l.Blocks() && BitmapStored(img, img', l, bits, |bits|) && ZeroOne(bits)
    ensures l.Holds(img') && SameData(img, img', l) && InodeTable(img', l) == InodeTable(img, l)
    ensures img'[l.start] == img[l.start] && Bits(img', l) == bits
  {
    LayoutFits(l);
    assert InodeTable(img', l) == InodeTable(img, l);
    assert Bits(img', l) == bits;
  }

  // ---------------------------------------------------------------- an empty file system

  predicate Region(l: Layout, k: int) {
    l.start <= k < l.start + l.sectors
  }

  predicate EmptyRegion(img: Image, l: Layout) {
    && l.start + l.sectors <= |img|
    && forall k | l.start <= k < l.start + l.sectors :: img[k] == ZeroSector()
  }

  function Blank(img: Image, l: Layout): (r: Image)
    ensures |r| == |img| && forall k | 0 <= k < |r| :: r[k] == if Region(l, k) then ZeroSector() else img[k]
  {
    seq(|img|, k requires 0 <= k < |img| => if Region(l, k) then ZeroSector() else img[k])
  }

  /** The superblock stores these as 32-bit numbers. */
  predicate Fits32(l: Layout) {
    l.DataLba() < 0x1_0000_0000 && l.Blocks() < 0x1_0000_0000
  }

  function SuperSector(l: Layout): Sector
    requires l.Blocks() >= 0 && Fits32(l)
  {
    LayoutFits(l);
    Put(ZeroSector(), 0, Le32(MAGIC) + Le32(INODES) + Le32(l.Blocks()) + Le32(l.DataLba()))
  }

  function EmptyRoot(): Inode {
    Inode(1, DIR, ROOT, 0, NoBlocks(), 0, 0)
  }

  function Formatted(img: Image, l: Layout): (r: Image)
    requires l.Holds(img) && Fits32(l)
    ensures |r| == |img|
  {
    LayoutFits(l);
    Blank(img, l)[l.start := SuperSector(l)][l.InodeLba(ROOT) := EncodeInode(EmptyRoot())]
  }

  lemma FormattedSector(img: Image, l: Layout, k: nat)
    requires l.Holds(img) && Fits32(l) && l.start <= k < l.start + l.sectors
    ensures Formatted(img, l)[k] == if k == l.InodeLba(ROOT) then EncodeInode(EmptyRoot())
                                    else if k == l.start then SuperSector(l) else ZeroSector()
  {
    LayoutFits(l);
  }

  lemma DecodeStored(img: Image, k: nat, s: Sector, n: Inode)
    requires k < |img| && img[k] == s && DecodeInode(s) == n
    ensures DecodeInode(img[k]) == n
  {
  }

  lemma FormattedInode(img: Image, l: Layout, i: nat)
    requires l.Holds(img) && Fits32(l) && l.Holds(Formatted(img, l)) && i < INODES
    ensures InodeTable(Formatted(img, l), l)[i] == if i == ROOT then EmptyRoot() else FreeInode()
  {
    LayoutFits(l);
    var r := Formatted(img, l);
    FormattedSector(img, l, l.InodeLba(i));
    if i == ROOT {
      DecodeEncode(EmptyRoot());
      DecodeStored(r, l.InodeLba(i), EncodeInode(EmptyRoot()), EmptyRoot());
    } else {
      MiniFsRepair.DecodeZero();
      DecodeStored(r, l.InodeLba(i), ZeroSector(), FreeInode());
    }
  }

  ghost predicate OnlyRoot(inodes: seq<Inode>) {
    |inodes| == INODES && forall i | 0 <= i < INODES :: inodes[i] == if i == ROOT then EmptyRoot() else FreeInode()
  }

  lemma FormattedTable(img: Image, l: Layout)
    requires l.Holds(img) && Fits32(l)
    ensures l.Holds(Formatted(img, l)) && OnlyRoot(InodeTable(Formatted(img, l), l))
  {
    var inodes := InodeTable(Formatted(img, l), l);
    forall i | 0 <= i < INODES
      ensures inodes[i] == if i == ROOT then EmptyRoot() else FreeInode()
    {
      FormattedInode(img, l, i);
    }
  }

  lemma FormattedBits(img: Image, l: Layout)
    requires l.Holds(img) && Fits32(l)
    ensures forall b | 0 <= b < l.Blocks() :: Bits(Formatted(img, l), l)[b] == 0
  {
    LayoutFits(l);
    forall b | 0 <= b < l.Blocks() ensures Bits(Formatted(img, l), l)[b] == 0 {
      assert Formatted(img, l)[l.BitmapLba() + b / 512] == ZeroSector();
    }
  }

  lemma PutU32(a: int, b: int, c: int, d: int)
    requires 0 <= a < 0x1_0000_0000 && 0 <= b < 0x1_0000_0000 && 0 <= c < 0x1_0000_0000 && 0 <= d < 0x1_0000_0000
    ensures var s := Put(ZeroSector(), 0, Le32(a) + Le32(b) + Le32(c) + Le32(d));
            U32(s, 0) == a && U32(s, 4) == b && U32(s, 8) == c && U32(s, 12) == d
  {
    var bs := Le32(a) + Le32(b) + Le32(c) + Le32(d);
    var s := Put(ZeroSector(), 0, bs);
    assert forall k | 0 <= k < 16 :: s[k] == bs[k];
    assert bs[0..4] == Le32(a) && bs[4..8] == Le32(b) && bs[8..12] == Le32(c) && bs[12..16] == Le32(d);
  }

  lemma FormattedSuper(img: Image, l: Layout)
    requires l.Holds(img) && Fits32(l)
    ensures l.Holds(Formatted(img, l)) && SuperOk(Formatted(img, l), l)
  {
    LayoutFits(l);
    PutU32(MAGIC, INODES, l.Blocks(), l.DataLba());
    assert Formatted(img, l)[l.start] == SuperSector(l);
  }

  lemma {:induction false} NothingReferenced(img: Image, l: Layout, inodes: seq<Inode>, n: nat, p: int)
    requires l.Holds(img) && OnlyRoot(inodes) && n <= |inodes| && p != 0
    ensures Total(img, l, inodes, n, p) == 0
    decreases n
  {
    if n > 0 {
      NothingReferenced(img, l, inodes, n - 1, p);
      NoRefs(img, l, inodes[n - 1], p);
    }
  }

  lemma EmptyTree(img: Image, l: Layout, inodes: seq<Inode>)
    requires l.Holds(img) && Packed(inodes) && OnlyRoot(inodes)
    ensures TreeOf(img, l, inodes).Consistent() && TreeOk(TreeOf(img, l, inodes))
  {
    TreeConsistent(img, l, inodes);
    var t := TreeOf(img, l, inodes);
    EmptyKids(img, l, inodes, ROOT);
    assert Below(t, ROOT, ROOT, 0);
  }

  lemma EmptyInodesOk(img: Image, l: Layout, inodes: seq<Inode>)
    requires l.Holds(img) && OnlyRoot(inodes)
    ensures InodesOk(l, inodes) && RefsInRange(img, l, inodes)
  {
    forall i, p | 0 <= i < INODES && inodes[i].used != 0 && Refs(img, l, inodes[i], p) > 0
      ensures p <= l.Blocks()
    {
      if p != 0 {
        NoRefs(img, l, inodes[i], p);
      }
    }
  }

  lemma EmptyAccounted(img: Image, l: Layout, inodes: seq<Inode>, bits: seq<int>)
    requires l.Holds(img) && OnlyRoot(inodes) && |bits| == l.Blocks() && forall b | 0 <= b < |bits| :: bits[b] == 0
    ensures Accounted(img, l, inodes, bits)
  {
    forall p | 1 <= p <= l.Blocks() ensures bits[p - 1] == Total(img, l, inodes, INODES, p) <= 1 {
      NothingReferenced(img, l, inodes, INODES, p);
    }
    AccountedByPointer(img, l, inodes, bits);
  }

  /** A freshly formatted region passes the checker. */
  lemma FormattedOk(img: Image, l: Layout)
    requires l.Holds(img) && Fits32(l)
    ensures CheckOk(Formatted(img, l), l)
  {
    var r := Formatted(img, l);
    var inodes := InodeTable(r, l);
    FormattedTable(img, l);
    FormattedBits(img, l);
    FormattedSuper(img, l);
    EmptyTree(r, l, inodes);
    EmptyInodesOk(r, l, inodes);
    EmptyAccounted(r, l, inodes, Bits(r, l));
    CheckedTree(r, l, inodes);
    PlainVerdict(r, l);
  }

  lemma EmptyRejected(img: Image, l: Layout)
    requires l.Holds(img) && EmptyRegion(img, l)
    ensures !SuperOk(img, l)
  {
    LayoutFits(l);
    assert img[l.start] == ZeroSector();
  }

  lemma EntryNode(img: Image, l: Layout, inodes: seq<Inode>, dir: nat, e: Entry)
    requires l.Holds(img) && Packed(inodes) && dir < INODES
    requires DirEntries(img, l, inodes, dir).Some? && e in DirEntries(img, l, inodes, dir).value
    ensures 0 < e.ino < INODES && inodes[e.ino].used != 0 && inodes[e.ino].typ == e.typ && inodes[e.ino].parent == dir
  {
    var es := DirEntries(img, l, inodes, dir).value;
    var k :| 0 <= k < |es| && es[k] == e;
    EntryTypes(img, l, inodes, dir, k);
  }

  lemma AllDirectoriesRead(img: Image, l: Layout, inodes: seq<Inode>, bits: seq<int>)
    requires WellFormed(img, l, inodes, bits)
    ensures forall i | 0 <= i < INODES && IsDir(inodes[i]) :: DirEntries(img, l, inodes, i).Some?
  {
    forall i | 0 <= i < INODES && IsDir(inodes[i]) ensures DirEntries(img, l, inodes, i).Some? {
      DirectoryReads(img, l, inodes, bits, i);
    }
  }

  /** What adding an entry for a new inode comes to. */
  lemma MadePerformed(img: Image, l: Layout, inodes: seq<Inode>, bits: seq<int>, dir: nat, name: seq<byte>, typ: int,
                      c: nat, img2: Image, inodes2: seq<Inode>, bits2: seq<int>)
    requires WellFormed(img, l, inodes, bits) && dir < INODES && IsDir(inodes[dir]) && (typ == DIR || typ == FILE)
    requires DirEntries(img, l, inodes, dir).Some? && 1 <= |name| < 24 && ValidUtf8(name)
    requires Fresh(name, DirEntries(img, l, inodes, dir).value) && !Breaks(name, DirEntries(img, l, inodes, dir).value)
    requires Core(img2, l, inodes2, bits2) && Spared(img, img2, l, bits)
    requires Appended(img, l, inodes, dir, name, typ, c, img2, inodes2, bits2)
    ensures WellFormed(img2, l, inodes2, bits2)
    ensures Performed(img, l, inodes, Done(Add(dir, name, typ), Made(c)), img2, inodes2)
  {
    NodesAddedIs(inodes, inodes2, dir, c, typ);
    EntryKept(img, l, inodes, bits, dir, Entry(CName(name), c, typ), img2, inodes2);
    MadeEmpty(img2, l, inodes, inodes2, dir, typ, c);
    MadeHas(img, l, inodes, dir, name, typ, c, img2, inodes2);
  }

  lemma MadeEmpty(img2: Image, l: Layout, inodes: seq<Inode>, inodes2: seq<Inode>, dir: nat, typ: int, c: nat)
    requires l.Holds(img2) && Packed(inodes2) && dir < INODES && c < INODES && |inodes| == INODES
    requires IsDir(inodes[dir]) && inodes[c].used == 0
    requires inodes2 == inodes[c := Inode(1, typ, dir, 0, NoBlocks(), 0, 0)][dir := inodes2[dir]]
    ensures HasType(inodes2[c], typ) && ReadFile(img2, l, inodes2[c]) == Some([])
    ensures forall i | 0 <= i < INODES && inodes[i].used == 0 && i != c :: inodes2[i].used == 0
  {
    assert dir != c && inodes2[c] == Inode(1, typ, dir, 0, NoBlocks(), 0, 0);
    EmptyKids(img2, l, inodes2, c);
  }

  /** What adding an entry that is there already comes to. */
  lemma FoundPerformed(img: Image, l: Layout, inodes: seq<Inode>, bits: seq<int>, dir: nat, name: seq<byte>, typ: int,
                       c: nat)
    requires Core(img, l, inodes, bits) && dir < INODES && IsDir(inodes[dir]) && (typ == DIR || typ == FILE)
    requires DirEntries(img, l, inodes, dir).Some? && Entry(name, c, typ) in DirEntries(img, l, inodes, dir).value
    ensures c < INODES && inodes[c].used != 0
    ensures Performed(img, l, inodes, Done(Add(dir, name, typ), Found(c)), img, inodes)
  {
    EntryNode(img, l, inodes, dir, Entry(name, c, typ));
    NothingKept(img, l, inodes, {});
    var k :| 0 <= k < |DirEntries(img, l, inodes, dir).value|
             && DirEntries(img, l, inodes, dir).value[k] == Entry(name, c, typ);
    assert !Fresh(name, DirEntries(img, l, inodes, dir).value);
  }

  /** A free inode, and free blocks for the directory with one more record. */
  ghost predicate Room(inodes: seq<Inode>, bits: seq<int>, dir: nat)
    requires |inodes| == INODES && dir < INODES && inodes[dir].Packable()
  {
    (exists i :: 2 <= i < INODES && inodes[i].used == 0) && Need(inodes[dir].size + 32) <= Occ(bits, 0)
  }

  lemma RoomIs(inodes: seq<Inode>, bits: seq<int>, dir: nat, found: bool, c: nat)
    requires |inodes| == INODES && dir < INODES && inodes[dir].Packable()
    requires if found then 2 <= c < INODES && inodes[c].used == 0 else forall i | 2 <= i < INODES :: inodes[i].used != 0
    ensures Room(inodes, bits, dir) <==> found && Need(inodes[dir].size + 32) <= Occ(bits, 0)
  {
  }

  class MiniFsWriter {
    const l: Layout
    var data: Image
    var bitmap: seq<int>
    var inodes: seq<Inode>

    ghost predicate Ready()
      reads this
    {
      l.Holds(data) && |bitmap| == l.Blocks() < 0x1_0000 && ZeroOne(bitmap)
    }

    /** Take the first free block and blank it; the result is its raw pointer. */
    method AllocBlock() returns (ok: bool, p: int)
      requires Ready()
      modifies this`data, this`bitmap
      ensures Ready() && (ok <==> Occ(old(bitmap), 0) > 0)
      ensures !ok ==> data == old(data) && bitmap == old(bitmap)
      ensures ok ==> 1 <= p <= l.Blocks() && Grown(l, old(data), old(bitmap), data, bitmap, [p])
      ensures ok ==> 0 <= l.PtrLba(p) < |data| && data[l.PtrLba(p)] == ZeroSector()
      ensures ok ==> Occ(bitmap, 0) == Occ(old(bitmap), 0) - 1
      ensures ok ==> old(bitmap)[p - 1] == 0 && forall b | 0 <= b < p - 1 :: old(bitmap)[b] != 0
    {
      for block := 0 to |bitmap|
        invariant forall b | 0 <= b < block :: bitmap[b] != 0
        invariant data == old(data) && bitmap == old(bitmap)
      {
        if bitmap[block] == 0 {
          TakeBlock(l, data, bitmap, block);
          GrownZeroOne(l, data, bitmap, data[l.PtrLba(block + 1) := ZeroSector()], bitmap[block := 1], [block + 1]);
          bitmap := bitmap[block := 1];
          data := data[l.PtrLba(block + 1) := ZeroSector()];
          return true, block + 1;
        }
      }
      NoFreeBlock(bitmap);
      return false, 0;
    }

    /** Take n blocks, or as many as there are. */
    method AllocBlocks(n: nat) returns (ok: bool, D: seq<int>)
      requires Ready()
      modifies this`data, this`bitmap
      ensures Ready() && (ok <==> n <= Occ(old(bitmap), 0))
      ensures Grown(l, old(data), old(bitmap), data, bitmap, D)
      ensures ok ==> |D| == n && Occ(bitmap, 0) == Occ(old(bitmap), 0) - n
    {
      D := [];
      ghost var img, bits := data, bitmap;
      GrownNothing(l, img, bits);
      for i := 0 to n
        invariant Ready() && |D| == i && Grown(l, img, bits, data, bitmap, D)
        invariant Occ(bitmap, 0) == Occ(bits, 0) - i
      {
        ghost var img1, bits1 := data, bitmap;
        var p;
        ok, p := AllocBlock();
        if !ok {
          return;
        }
        GrownTwice(l, img, bits, img1, bits1, data, bitmap, D, [p]);
        D := D + [p];
      }
      ok := true;
    }

    /** Take a block and store a table of pointers in it. */
    method BuildTable(ptrs: seq<int>) returns (ok: bool, t: int)
      requires Ready() && |ptrs| <= 256 && Pointers16(ptrs)
      modifies this`data, this`bitmap
      ensures Ready() && (ok <==> Occ(old(bitmap), 0) > 0)
      ensures !ok ==> data == old(data) && bitmap == old(bitmap)
      ensures ok ==> 1 <= t <= l.Blocks() && Grown(l, old(data), old(bitmap), data, bitmap, [t])
      ensures ok ==> TableAt(data, l, t) == Padded(ptrs, 256)
      ensures ok ==> Occ(bitmap, 0) == Occ(old(bitmap), 0) - 1
    {
      ok, t := AllocBlock();
      if ok {
        var s := FillTable(data[l.PtrLba(t)], ptrs);
        OccOne(t, t);
        GrownWrite(l, old(data), old(bitmap), data, bitmap, [t], t, s);
        data := data[l.PtrLba(t) := s];
      }
    }

    /** The double-indirect table for the blocks R and its inner tables; A lists the blocks taken, also on failure. */
    method BuildDouble(R: seq<int>) returns (ok: bool, outer: int, inner: seq<int>, ghost A: seq<int>)
      requires Ready() && 0 < |R| <= 65536 && Pointers16(R)
      modifies this`data, this`bitmap
      ensures Ready() && (ok <==> 1 + Groups(|R|) <= Occ(old(bitmap), 0))
      ensures Grown(l, old(data), old(bitmap), data, bitmap, A)
      ensures ok ==> A == [outer] + inner && 1 <= outer <= l.Blocks()
      ensures ok ==> |inner| == Groups(|R|) && DoublePart(l, data, outer, inner, R)
      ensures ok ==> Occ(bitmap, 0) == Occ(old(bitmap), 0) - 1 - Groups(|R|)
    {
      ghost var img, bits := data, bitmap;
      inner, A := [], [];
      ok, outer := BuildTable([]);
      if !ok {
        GrownNothing(l, img, bits);
        return;
      }
      DoubleStart(l, img, bits, data, bitmap, outer, R);
      for g := 0 to Groups(|R|)
        invariant |inner| == g && DoubleSoFar(l, img, bits, data, bitmap, outer, inner, R)
        invariant Occ(bitmap, 0) == Occ(bits, 0) - 1 - g
      {
        ghost var img1, bits1 := data, bitmap;
        var q;
        ok, q := BuildTable(Group(R, g));
        if !ok {
          A := [outer] + inner;
          return;
        }
        LayoutFits(l);
        ghost var img2 := data;
        data := data[l.PtrLba(outer) := Put(data[l.PtrLba(outer)], 2 * g, Le16(q))];
        DoubleNext(l, img, bits, img1, bits1, img2, bitmap, outer, inner, q, R, data);
        inner := inner + [q];
      }
      A := [outer] + inner;
      ok := true;
    }

    /** The tables for the data blocks D; A lists the blocks taken, also on failure. */
    method BuildTables(D: seq<int>) returns (ok: bool, ind: int, dbl: int, ghost inner: seq<int>, ghost A: seq<int>)
      requires Ready() && |D| < 0x1_0000 && Pointers16(D)
      modifies this`data, this`bitmap
      ensures Ready() && (ok <==> TablesFor(|D|) <= Occ(old(bitmap), 0))
      ensures Grown(l, old(data), old(bitmap), data, bitmap, A)
      ensures ok ==> A == Tables(ind, dbl, inner) && Laid(data, l, D, ind, dbl, inner)
      ensures ok ==> 0 <= ind <= l.Blocks() && 0 <= dbl <= l.Blocks()
      ensures ok ==> Occ(bitmap, 0) == Occ(old(bitmap), 0) - TablesFor(|D|)
    {
      ghost var img, bits := data, bitmap;
      GrownNothing(l, img, bits);
      ok, ind, dbl, inner, A := true, 0, 0, [], [];
      if |D| <= 8 {
        LaidSmall(data, l, D);
        return;
      }
      RestPointers(D);
      ok, ind := BuildTable(Middle(D));
      if !ok {
        return;
      }
      A := [ind];
      if |D| <= 264 {
        LaidMedium(data, l, D, ind);
        return;
      }
      ghost var img1, bits1 := data, bitmap;
      ghost var B;
      OccOne(ind, ind);
      assert bits1[ind - 1] == bits[ind - 1] + Occ([ind], ind);
      ok, dbl, inner, B := BuildDouble(Rest(D));
      GrownTwice(l, img, bits, img1, bits1, data, bitmap, [ind], B);
      A := [ind] + B;
      if ok {
        LaidLarge(l, img1, bits1, data, D, ind, dbl, inner);
      }
    }

    /** Copy a payload into the blocks D, which are among the blocks A that have just been taken. */
    method WriteChunks(D: seq<int>, payload: seq<byte>, ghost img: Image, ghost bits: seq<int>, ghost A: seq<int>)
      requires Ready() && ZeroOne(bits) && Grown(l, img, bits, data, bitmap, A) && |D| == Ceil(|payload|)
      requires InData(l, D) && forall x | 0 <= x < |D| :: Occ(A, D[x]) > 0
      modifies this`data
      ensures Ready() && Grown(l, img, bits, data, bitmap, A)
      ensures ChunksDone(l, old(data), data, D, payload, |D|)
    {
      ghost var was := data;
      LayoutFits(l);
      for i := 0 to |D|
        invariant Ready() && Grown(l, img, bits, data, bitmap, A)
        invariant ChunksDone(l, was, data, D, payload, i)
      {
        var s := Put(data[l.PtrLba(D[i])], 0, Chunk(payload, i));
        GrownWrite(l, img, bits, data, bitmap, A, D[i], s);
        ChunkStep(l, was, data, D, payload, i, data[l.PtrLba(D[i]) := s]);
        data := data[l.PtrLba(D[i]) := s];
      }
    }

    /** Give back the blocks behind the pointers of an inode. */
    method FreeBlocks(pointers: seq<int>)
      requires Ready() && Within(pointers, 1, l.Blocks())
      modifies this`bitmap
      ensures Ready() && Freed(old(bitmap), pointers, bitmap)
    {
      for i := 0 to |pointers|
        invariant Ready() && |bitmap| == |old(bitmap)|
        invariant forall p {:trigger Count(pointers, i, p)} | 1 <= p <= |bitmap| ::
                    bitmap[p - 1] == if Count(pointers, i, p) > 0 then 0 else old(bitmap)[p - 1]
      {
        ghost var was := bitmap;
        bitmap := bitmap[pointers[i] - 1 := 0];
        forall p {:trigger Count(pointers, i + 1, p)} | 1 <= p <= |bitmap|
          ensures bitmap[p - 1] == if Count(pointers, i + 1, p) > 0 then 0 else old(bitmap)[p - 1]
        {
          assert was[p - 1] == if Count(pointers, i, p) > 0 then 0 else old(bitmap)[p - 1];
        }
      }
    }

    /** Everything the checker requires of inodes and blocks holds of the image and the tables in memory. */
    ghost predicate Sound()
      reads this
    {
      Core(data, l, inodes, bitmap) && l.Blocks() < 0x1_0000
    }

    /** Store an inode. */
    method WriteInode(ino: nat, n: Inode)
      requires l.Holds(data) && |inodes| == INODES && ino < INODES && n.Packable()
      modifies this`data, this`inodes
      ensures Stored(old(data), data, l, old(inodes), ino, n) && inodes == old(inodes)[ino := n]
    {
      LayoutFits(l);
      inodes := inodes[ino := n];
      data := data[l.InodeLba(ino) := EncodeInode(n)];
    }

    /** Lay a payload out in blocks taken from the free ones; A lists the blocks taken, also on failure. */
    method StoreData(payload: seq<byte>)
      returns (ok: bool, D: seq<int>, ind: int, dbl: int, ghost inner: seq<int>, ghost A: seq<int>)
      requires Ready()
      modifies this`data, this`bitmap
      ensures Ready() && (ok <==> Need(|payload|) <= Occ(old(bitmap), 0))
      ensures Grown(l, old(data), old(bitmap), data, bitmap, A)
      ensures ok ==> PayloadStored(l, old(data), old(bitmap), data, bitmap, D, ind, dbl, inner, payload)
      ensures ok ==> Occ(bitmap, 0) == Occ(old(bitmap), 0) - Need(|payload|)
    {
      ghost var img, bits := data, bitmap;
      CountBound(bitmap, |bitmap|, 0);
      ind, dbl, inner := 0, 0, [];
      ok, D := AllocBlocks(Ceil(|payload|));
      A := D;
      if !ok {
        return;
      }
      AllTaken(l, img, bits, data, bitmap, D, D);
      ghost var img1, bits1, B := data, bitmap, [];
      ok, ind, dbl, inner, B := BuildTables(D);
      GrownTwice(l, img, bits, img1, bits1, data, bitmap, D, B);
      A := D + B;
      if !ok {
        return;
      }
      forall p {:trigger Occ(D, p)} ensures Occ(D, p) <= Occ(A, p) {
        OccAppend(D, B, p);
      }
      AllTaken(l, img, bits, data, bitmap, A, D);
      ghost var was := data;
      WriteChunks(D, payload, img, bits, A);
      LaidAfterChunks(l, img, bits, was, data, bitmap, D, ind, dbl, inner, payload);
    }

    /** Replace the contents of an inode: take new blocks, copy the payload in, give the old blocks back, and store the
        inode.  It succeeds exactly when the free blocks suffice, the old ones not counted. */
    method SetContents(ino: nat, payload: seq<byte>) returns (ok: bool)
      requires Sound() && ino < INODES && inodes[ino].used != 0
      modifies this`data, this`bitmap, this`inodes
      ensures ok <==> Need(|payload|) <= Occ(old(bitmap), 0)
      ensures l.Holds(data) && Spared(old(data), data, l, old(bitmap))
      ensures !ok ==> inodes == old(inodes) == InodeTable(data, l)
      ensures ok ==> Sound() && inodes == old(inodes)[ino := inodes[ino]] && SameNode(old(inodes)[ino], inodes[ino])
      ensures ok ==> inodes[ino].size == |payload| && ReadFile(data, l, inodes[ino]) == Some(payload)
    {
      ghost var img, bits, was := data, bitmap, inodes;
      var n := inodes[ino];
      var old_ := OldBlocks(data, l, n);
      OldWithin(data, l, n, old_);
      CoreZeroOne(data, l, inodes, bitmap);
      var D, ind, dbl;
      ghost var inner, A;
      ok, D, ind, dbl, inner, A := StoreData(payload);
      if !ok {
        MetadataTable(img, data, l);
        return;
      }
      ghost var img1, bits1 := data, bitmap;
      StoredReads(l, img, bits, img1, bits1, D, ind, dbl, inner, payload, n);
      FreeBlocks(old_);
      FreedAlike(img, l, n, old_, bits1, bitmap);
      var m := WithContents(n, |payload|, D, ind, dbl);
      WriteInode(ino, m);
      ContentsReplaced(l, img, was, bits, img1, bits1, ino, D, ind, dbl, inner, payload, bitmap, data);
      assert inodes[ino] == m && SameNode(n, m);
    }

    /** The whole invariant: the rules about inodes and blocks, and directories that form a tree. */
    ghost predicate Valid()
      reads this
    {
      WellFormed(data, l, inodes, bitmap) && l.Blocks() < 0x1_0000
    }

    /** Store a fresh inode in the first free slot from 2 on. */
    method AllocInode(typ: int, parent: nat) returns (ok: bool, ino: nat)
      requires Sound() && parent < INODES && IsDir(inodes[parent]) && (typ == DIR || typ == FILE)
      modifies this`data, this`inodes
      ensures Sound() && Spared(old(data), data, l, bitmap)
      ensures !ok ==> data == old(data) && inodes == old(inodes)
      ensures !ok ==> forall i | 2 <= i < INODES :: inodes[i].used != 0
      ensures ok ==> 2 <= ino < INODES && old(inodes)[ino].used == 0
      ensures ok ==> forall i | 2 <= i < ino :: old(inodes)[i].used != 0
      ensures ok ==> inodes == old(inodes)[ino := Inode(1, typ, parent, 0, NoBlocks(), 0, 0)]
    {
      for i := 2 to INODES
        invariant data == old(data) && inodes == old(inodes)
        invariant forall k | 2 <= k < i :: inodes[k].used != 0
      {
        if inodes[i].used == 0 {
          FreshInodeSound(data, l, inodes, bitmap, i, typ, parent);
          WriteInode(i, Inode(1, typ, parent, 0, NoBlocks(), 0, 0));
          return true, i;
        }
      }
      return false, 0;
    }

    /** Look a name up in a directory. */
    method Child(parent: nat, name: seq<byte>) returns (found: bool, ino: nat)
      requires Valid() && parent < INODES && IsDir(inodes[parent])
      ensures DirEntries(data, l, inodes, parent).Some?
      ensures var es := DirEntries(data, l, inodes, parent).value;
              && (found <==> !Fresh(name, es))
              && (found ==> ino < INODES && Entry(name, ino, inodes[ino].typ) in es)
    {
      DirectoryReads(data, l, inodes, bitmap, parent);
      var ok, entries := ReadDirEntries(data, l, inodes, parent);
      var k := FindEntry(entries, name);
      if k < |entries| {
        EntryTypes(data, l, inodes, parent, k);
        return true, entries[k].ino;
      }
      return false, 0;
    }

    /** Append a record to a directory. */
    method AppendRecord(parent: nat, rec: seq<byte>) returns (ok: bool)
      requires Sound() && parent < INODES && inodes[parent].used != 0 && |rec| == 32
      requires ReadFile(data, l, inodes[parent]).Some?
      modifies this`data, this`bitmap, this`inodes
      ensures ok <==> Need(old(inodes)[parent].size + 32) <= Occ(old(bitmap), 0)
      ensures l.Holds(data) && Spared(old(data), data, l, old(bitmap))
      ensures !ok ==> inodes == old(inodes)
      ensures ok ==> Sound() && inodes == old(inodes)[parent := inodes[parent]]
      ensures ok ==> SameNode(old(inodes)[parent], inodes[parent])
      ensures ok ==> ReadFile(data, l, inodes[parent]) == Some(old(ReadFile(data, l, inodes[parent])).value + rec)
    {
      var readable, current := ReadFileBytes(data, l, inodes[parent]);
      ok := SetContents(parent, current + rec);
    }

    /** Record the inode `ino`, which has just been stored, under a name. */
    method RecordChild(parent: nat, ino: nat, name: seq<byte>, typ: int, ghost img: Image, ghost was: seq<Inode>,
                       ghost bits: seq<int>)
      returns (ok: bool)
      requires WellFormed(img, l, was, bits) && parent < INODES && IsDir(was[parent]) && (typ == DIR || typ == FILE)
      requires 1 <= |name| < 24 && DirEntries(img, l, was, parent).Some?
      requires Sound() && bitmap == bits && Spared(img, data, l, bits) && 2 <= ino < INODES && was[ino].used == 0
      requires inodes == was[ino := Inode(1, typ, parent, 0, NoBlocks(), 0, 0)]
      modifies this`data, this`bitmap, this`inodes
      ensures ok <==> Need(was[parent].size + 32) <= Occ(bits, 0)
      ensures l.Holds(data) && Spared(img, data, l, bits) && |inodes| == INODES
      ensures ok ==> Sound() && Appended(img, l, was, parent, name, typ, ino, data, inodes, bitmap)
    {
      ghost var img1 := data;
      assert inodes[parent] == was[parent];
      SparedReads(img, data, l, was, bits, parent);
      DirBytes(img, l, was, parent);
      ok := AppendRecord(parent, MakeRecord(ino, typ, name));
      SparedChain(img, img1, data, l, bits);
      if ok {
        EntryAdded(img, l, was, bits, parent, ino, typ, name, data, inodes, bitmap);
      }
    }

    /** The second half of adding an entry: a fresh inode, and a record for it at the end of the directory. */
    method AppendChild(parent: nat, name: seq<byte>, typ: int) returns (ok: bool, ino: nat)
      requires Valid() && parent < INODES && IsDir(inodes[parent]) && (typ == DIR || typ == FILE) && 1 <= |name| < 24
      requires DirEntries(data, l, inodes, parent).Some?
      modifies this`data, this`bitmap, this`inodes
      ensures ok <==> Room(old(inodes), old(bitmap), parent)
      ensures l.Holds(data) && Spared(old(data), data, l, old(bitmap)) && |inodes| == INODES
      ensures ok ==> Sound() && Appended(old(data), l, old(inodes), parent, name, typ, ino, data, inodes, bitmap)
    {
      ghost var img, bits, was := data, bitmap, inodes;
      ok, ino := AllocInode(typ, parent);
      RoomIs(was, bits, parent, ok, ino);
      if ok {
        ok := RecordChild(parent, ino, name, typ, img, was, bits);
      }
    }

    /** Add a named entry to a directory, or return the inode of an existing entry of that name.  It fails when the
        existing entry has another type, and otherwise only for want of room.  A new entry keeps the whole invariant
        exactly when the name, cut at its first NUL, is a good one; for names free of '/' and NUL that is always so. */
    method AddChild(parent: nat, name: seq<byte>, typ: int) returns (ok: bool, ino: nat)
      requires Valid() && parent < INODES && IsDir(inodes[parent]) && (typ == DIR || typ == FILE)
      modifies this`data, this`bitmap, this`inodes
      ensures old(DirEntries(data, l, inodes, parent)).Some?
      ensures l.Holds(data) && Spared(old(data), data, l, old(bitmap)) && |inodes| == INODES
      ensures ok ==> 1 <= |name| < 24 && ValidUtf8(name) && Sound()
      ensures 1 <= |name| < 24 && ValidUtf8(name) ==> var es := old(DirEntries(data, l, inodes, parent)).value;
                if Fresh(name, es) then
                  && (ok <==> Room(old(inodes), old(bitmap), parent))
                  && (ok ==> Appended(old(data), l, old(inodes), parent, name, typ, ino, data, inodes, bitmap))
                else
                  && data == old(data) && bitmap == old(bitmap) && inodes == old(inodes)
                  && ino < INODES && Entry(name, ino, inodes[ino].typ) in es && (ok <==> inodes[ino].typ == typ)
    {
      DirectoryReads(data, l, inodes, bitmap, parent);
      ino := 0;
      if !ValidUtf8(name) || |name| < 1 || |name| >= 24 {
        return false, ino;
      }
      var found;
      found, ino := Child(parent, name);
      if found {
        return inodes[ino].typ == typ, ino;
      }
      ok, ino := AppendChild(parent, name, typ);
    }

    /** Install the bitmap: one byte per block, the padding after the last block left alone. */
    method WriteBitmap()
      requires Valid()
      modifies this`data
      ensures CheckOk(data, l) && SameData(old(data), data, l) && InodeTable(data, l) == inodes
    {
      ghost var img := data;
      data := StoreBitmap(data, l, bitmap);
      CoreZeroOne(img, l, inodes, bitmap);
      BitmapDone(img, data, l, bitmap);
      Finished(img, data, l, inodes, bitmap);
    }

    /** Replace the contents of a file; the tree of directories is not affected. */
    method SetFile(ino: nat, payload: seq<byte>) returns (ok: bool)
      requires Valid() && ino < INODES && inodes[ino].used != 0 && inodes[ino].typ == FILE
      modifies this`data, this`bitmap, this`inodes
      ensures ok <==> Need(|payload|) <= Occ(old(bitmap), 0)
      ensures ok ==> Valid() && ReadFile(data, l, inodes[ino]) == Some(payload)
      ensures ok ==> inodes == old(inodes)[ino := inodes[ino]] && SameNode(old(inodes)[ino], inodes[ino])
      ensures ok ==> Kept(old(data), l, old(inodes), data, inodes, {ino})
    {
      ghost var img, bits, was := data, bitmap, inodes;
      ok := SetContents(ino, payload);
      if ok {
        FileReplaced(img, l, was, bits, ino, inodes[ino], data, bitmap);
        FileKept(img, l, was, bits, data, inodes, ino);
      }
    }

    constructor (image: Image, l: Layout)
      ensures data == image && this.l == l
    {
      this.l := l;
      data, bitmap, inodes := image, [], [];
    }

    /** Write an empty file system: a superblock and a root directory, everything else zero. */
    method Format()
      requires l.Holds(data) && Fits32(l)
      modifies this`data
      ensures data == Formatted(old(data), l)
    {
      LayoutFits(l);
      data := Blank(data, l);
      data := data[l.start := SuperSector(l)];
      data := data[l.InodeLba(ROOT) := EncodeInode(EmptyRoot())];
    }

    /** Open the file system of an image, formatting the region when it is empty.  What has been opened is well formed
        exactly when the checker accepts the image, as it does a formatted one. */
    method Open() returns (ok: bool)
      modifies this`data, this`bitmap, this`inodes
      ensures ok ==> l.Holds(old(data)) && Core(data, l, inodes, bitmap) && bitmap == Bits(data, l)
      ensures ok ==> (WellFormed(data, l, inodes, bitmap) <==> CheckOk(data, l))
      ensures ok && EmptyRegion(old(data), l) ==>
                Fits32(l) && data == Formatted(old(data), l) && CheckOk(data, l)
      ensures !EmptyRegion(old(data), l) ==> data == old(data)
      ensures CheckOk(old(data), l) ==> ok
    {
      if l.Blocks() < 0 || |data| < l.start + l.sectors {
        return false;
      }
      if EmptyRegion(data, l) {
        EmptyRejected(data, l);
        if !Fits32(l) {
          return false;
        }
        FormattedOk(data, l);
        Format();
      }
      ok := Examine();
    }

    /** Load the metadata and check it, except for inodes that no directory names. */
    method Examine() returns (ok: bool)
      requires l.Holds(data)
      modifies this`bitmap, this`inodes
      ensures ok ==> Core(data, l, inodes, bitmap) && bitmap == Bits(data, l)
      ensures ok ==> (WellFormed(data, l, inodes, bitmap) <==> CheckOk(data, l))
      ensures CheckOk(data, l) ==> ok
    {
      var fs := new MiniFsImage(data, l);
      PlainVerdict(data, l);
      ok := fs.Load(false);
      if !ok {
        return;
      }
      ok := fs.CheckInodes(false);
      if !ok {
        return;
      }
      ok := fs.CheckBlocks(false);
      if !ok {
        return;
      }
      CheckedTree(data, l, fs.inodes);
      ok := fs.WalkDirs(ROOT, {});
      inodes, bitmap := fs.inodes, fs.bitmap;
    }

    /** Add a directory entry with any name that does not break the directory. */
    method AddEntry(parent: nat, name: seq<byte>, typ: int) returns (ok: bool, out: Outcome)
      requires Valid() && parent < INODES && IsDir(inodes[parent]) && (typ == DIR || typ == FILE)
      requires DirEntries(data, l, inodes, parent).Some? && !Breaks(name, DirEntries(data, l, inodes, parent).value)
      modifies this`data, this`bitmap, this`inodes
      ensures ok ==> Valid() && (out.Found? || out.Made?)
      ensures ok ==> Performed(old(data), l, old(inodes), Done(Add(parent, name, typ), out), data, inodes)
    {
      ghost var img, bits, es := data, bitmap, DirEntries(data, l, inodes, parent).value;
      var was, ino := inodes, 0;
      ok, ino := AddChild(parent, name, typ);
      out := Passed;
      if ok {
        if was[ino].used == 0 {
          out := Made(ino);
        } else {
          out := Found(ino);
        }
        if Fresh(name, es) {
          MadePerformed(img, l, was, bits, parent, name, typ, ino, data, inodes, bitmap);
        } else {
          FoundPerformed(img, l, was, bits, parent, name, typ, ino);
        }
      }
    }

    /** Add a directory entry with a plain name. */
    method AddPlain(parent: nat, name: seq<byte>, typ: int) returns (ok: bool, ino: nat)
      requires Valid() && parent < INODES && IsDir(inodes[parent]) && (typ == DIR || typ == FILE)
      requires Plain(name)
      modifies this`data, this`bitmap, this`inodes
      ensures ok ==> Valid() && ino < INODES && inodes[ino].used != 0 && inodes[ino].typ == typ
      ensures ok ==> inodes[ino].parent == parent && Kept(old(data), l, old(inodes), data, inodes, {})
      ensures ok ==> Lists(data, l, inodes, parent, Entry(name, ino, typ))
    {
      ghost var img, was := data, inodes;
      DirectoryReads(data, l, inodes, bitmap, parent);
      PlainDoesNotBreak(name, DirEntries(data, l, inodes, parent).value);
      var out;
      ok, out := AddEntry(parent, name, typ);
      ino := 0;
      if ok {
        ino := out.ino;
        PlainPerformed(img, l, was, parent, name, typ, out, data, inodes);
        EntryNode(data, l, inodes, parent, Entry(name, ino, typ));
      }
    }

    /** One request of a session; requests that do not apply to the current state are passed over. */
    method Perform(op: Op) returns (ok: bool, out: Outcome)
      requires Valid()
      modifies this`data, this`bitmap, this`inodes
      ensures ok ==> Valid() && Performed(old(data), l, old(inodes), Done(op, out), data, inodes)
    {
      match op
      case Add(parent, name, typ) =>
        var applies := WouldAdd(parent, name, typ);
        if !applies {
          PassedHas(data, l, inodes, op);
          return true, Passed;
        }
        ok, out := AddEntry(parent, name, typ);
      case Write(ino, payload) =>
        if ino >= INODES || inodes[ino].used == 0 || inodes[ino].typ != FILE {
          PassedHas(data, l, inodes, op);
          return true, Passed;
        }
        ghost var img, was := data, inodes;
        ok := SetFile(ino, payload);
        out := Wrote;
        if ok {
          WroteHas(img, l, was, ino, payload, data, inodes);
        }
    }

    /** Does a request to add an entry apply? */
    method WouldAdd(parent: nat, name: seq<byte>, typ: int) returns (applies: bool)
      requires Valid()
      ensures applies <==> Applies(data, l, inodes, Add(parent, name, typ))
    {
      if parent >= INODES || !IsDir(inodes[parent]) || (typ != DIR && typ != FILE) {
        return false;
      }
      DirectoryReads(data, l, inodes, bitmap, parent);
      var readable, es := ReadDirEntries(data, l, inodes, parent);
      return !Breaks(name, es);
    }

    /** One more request of a session that began with `img` and `was`. */
    method PerformNext(op: Op, ghost img: Image, ghost was: seq<Inode>, log: seq<Done>)
      returns (ok: bool, log': seq<Done>)
      requires Valid() && l.Holds(img) && Packed(was) && SoFar(img, l, was, data, inodes, log)
      modifies this`data, this`bitmap, this`inodes
      ensures ok ==> Valid() && SoFar(img, l, was, data, inodes, log')
      ensures exists out :: log' == log + [Done(op, out)]
    {
      ghost var img1, was1 := data, inodes;
      AllDirectoriesRead(data, l, inodes, bitmap);
      var out;
      ok, out := Perform(op);
      log' := log + [Done(op, out)];
      if ok {
        SoFarNext(img, l, was, img1, was1, log, Done(op, out), data, inodes);
      }
    }

    /** Any sequence of requests that succeeds, followed by installing the bitmap, leaves an image that the checker
        accepts. Every file there is at the end, found or made in the session, reads as the last payload written to it,
        as nothing if the session made it and did not write to it, and as before otherwise; the files and directories
        are those found and those made; every name added is listed, and so is what was listed before. The log says what
        became of each request. */
    method Session(ops: seq<Op>) returns (ok: bool, log: seq<Done>)
      requires Valid()
      modifies this`data, this`bitmap, this`inodes
      ensures ok ==> |log| == |ops| && forall k | 0 <= k < |ops| :: log[k].op == ops[k]
      ensures ok ==> CheckOk(data, l) && inodes == InodeTable(data, l)
      ensures ok ==> SoFar(old(data), l, old(inodes), data, inodes, log)
    {
      log := [];
      SoFarStart(data, l, inodes);
      for k := 0 to |ops|
        invariant Valid() && |log| == k && forall j | 0 <= j < k :: log[j].op == ops[j]
        invariant SoFar(old(data), l, old(inodes), data, inodes, log)
      {
        ok, log := PerformNext(ops[k], old(data), old(inodes), log);
        if !ok {
          return;
        }
      }
      Finish(old(data), old(inodes), log);
      ok := true;
    }

    /** The end of a session: only the bitmap remains to be installed. */
    method Finish(ghost img: Image, ghost was: seq<Inode>, log: seq<Done>)
      requires Valid() && l.Holds(img) && Packed(was) && SoFar(img, l, was, data, inodes, log)
      modifies this`data
      ensures CheckOk(data, l) && inodes == InodeTable(data, l) && SoFar(img, l, was, data, inodes, log)
    {
      ghost var img1 := data;
      WriteBitmap();
      SoFarFinished(img, l, was, img1, inodes, log, data);
    }

    /** Make the directory /games/doom. */
    method MakeDoomDir() returns (ok: bool, doom: nat)
      requires Valid()
      modifies this`data, this`bitmap, this`inodes
      ensures ok ==> Valid() && doom < INODES && IsDir(inodes[doom]) && DoomDir(data, l, inodes, doom)
      ensures ok ==> Kept(old(data), l, old(inodes), data, inodes, {})
    {
      ghost var img, was := data, inodes;
      var games;
      doom := 0;
      ok, games := AddPlain(ROOT, GamesName(), DIR);
      if !ok {
        return;
      }
      ghost var img1, was1 := data, inodes;
      ok, doom := AddPlain(games, DoomName(), DIR);
      if ok {
        KeptTwice(img, l, was, img1, was1, {}, data, inodes, {});
        assert Lists(data, l, inodes, ROOT, Entry(GamesName(), games, DIR));
      }
    }

    /** Store the contents of a file and install the bitmap. */
    method StoreAndFinish(target: nat, wad: seq<byte>) returns (ok: bool)
      requires Valid() && target < INODES && IsFile(inodes[target])
      modifies this`data, this`bitmap, this`inodes
      ensures ok ==> CheckOk(data, l) && inodes == InodeTable(data, l)
      ensures ok ==> Kept(old(data), l, old(inodes), data, inodes, {target})
      ensures ok ==> ReadFile(data, l, inodes[target]) == Some(wad)
    {
      ghost var img, was := data, inodes;
      ok := SetFile(target, wad);
      if ok {
        ghost var img1 := data;
        WriteBitmap();
        FinishedKept(img, l, was, img1, inodes, data, target);
      }
    }

    /** Make the file /games/doom/doom1.wad. */
    method MakeWadFile() returns (ok: bool, target: nat)
      requires Valid()
      modifies this`data, this`bitmap, this`inodes
      ensures ok ==> Valid() && target < INODES && IsFile(inodes[target]) && WadAt(data, l, inodes, target)
      ensures ok ==> Kept(old(data), l, old(inodes), data, inodes, {})
    {
      ghost var img, was := data, inodes;
      var doom;
      target := 0;
      ok, doom := MakeDoomDir();
      if !ok {
        return;
      }
      ghost var img1, was1 := data, inodes;
      ok, target := AddPlain(doom, WadName(), FILE);
      if ok {
        KeptTwice(img, l, was, img1, was1, {}, data, inodes, {});
        WadMade(img1, l, was1, data, inodes, doom, target);
      }
    }

    /** Install a file as /games/doom/doom1.wad: the checker accepts the image, the path leads to a file with these
        contents, and every other file and listing is kept. */
    method Install(wad: seq<byte>) returns (ok: bool, target: nat)
      requires Valid()
      modifies this`data, this`bitmap, this`inodes
      ensures ok ==> CheckOk(data, l) && inodes == InodeTable(data, l)
      ensures ok ==> target < INODES && WadAt(data, l, inodes, target)
      ensures ok ==> ReadFile(data, l, inodes[target]) == Some(wad)
      ensures ok ==> Kept(old(data), l, old(inodes), data, inodes, {target})
    {
      ok, target := MakeWadFile();
      if !ok {
        return;
      }
      ghost var img, was := data, inodes;
      ok := StoreAndFinish(target, wad);
      if ok {
        WadKept(old(data), l, old(inodes), img, was, data, inodes, target);
      }
    }
  }
}

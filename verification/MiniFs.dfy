/** The on-disk format of MiniFS and the meaning of an image.

    An image is a sequence of 512-byte sectors.  A file-system region starts with a superblock, then one sector per
    inode, then a bitmap with one byte per data block, then the data blocks.  Block pointers are 16-bit and one-based:
    a raw pointer p names data block p - 1, and 0 means "no block".  An inode holds 8 direct pointers, one pointer to a
    table of 256 pointers and one pointer to a table of 256 such tables.  Everything here is a pure function of the
    image; the checker and the writer are proved against these functions. */
module MiniFs {
  import opened Common

  const INODES: nat := 2048
  const DIR: int := 1
  const FILE: int := 2
  const ROOT: nat := 1
  const MAGIC: int := 0x5346424D

  type Sector = s: seq<byte> | |s| == 512 witness seq(512, _ => 0)
  type Image = seq<Sector>

  function ZeroSector(): Sector {
    seq(512, k => 0)
  }

  // ---------------------------------------------------------------- layout

  datatype Layout = Layout(start: nat, sectors: nat) {
    function BitmapSectors(): int {
      (sectors - 1 - INODES + 512) / 513
    }

    /** Number of data blocks; negative when the region cannot even hold the metadata. */
    function Blocks(): int {
      sectors - 1 - INODES - BitmapSectors()
    }

    function InodeLba(ino: nat): nat {
      start + 1 + ino
    }

    function BitmapLba(): nat {
      start + 1 + INODES
    }

    function DataLba(): int {
      start + 1 + INODES + BitmapSectors()
    }

    /** The sector of the data block behind a raw pointer. */
    function PtrLba(p: int): int {
      DataLba() + p - 1
    }

    ghost predicate Holds(img: Image) {
      Blocks() >= 0 && start + sectors <= |img|
    }
  }

  /** The bitmap area is large enough and the data area ends exactly where the region ends. */
  lemma LayoutFits(l: Layout)
    requires l.Blocks() >= 0
    ensures 0 <= l.BitmapSectors() && l.Blocks() <= 512 * l.BitmapSectors()
    ensures l.DataLba() + l.Blocks() == l.start + l.sectors
    ensures l.BitmapLba() + l.BitmapSectors() == l.DataLba()
  {
  }

  // ---------------------------------------------------------------- integers in sectors

  function U16(s: seq<byte>, o: nat): (v: int)
    requires o + 2 <= |s|
    ensures 0 <= v < 0x1_0000
  {
    s[o] as int + 256 * (s[o + 1] as int)
  }

  function U32(s: seq<byte>, o: nat): (v: int)
    requires o + 4 <= |s|
    ensures 0 <= v < 0x1_0000_0000
  {
    U16(s, o) + 0x1_0000 * U16(s, o + 2)
  }

  function Le16(v: int): seq<byte>
    requires 0 <= v < 0x1_0000
  {
    [v % 256, v / 256]
  }

  function Le32(v: int): seq<byte>
    requires 0 <= v < 0x1_0000_0000
  {
    Le16(v % 0x1_0000) + Le16(v / 0x1_0000)
  }

  /** Slice assignment `s[o:o+len(bs)] = bs`. */
  function Put(s: Sector, o: nat, bs: seq<byte>): Sector
    requires o + |bs| <= 512
  {
    s[..o] + bs + s[o + |bs|..]
  }

  // ---------------------------------------------------------------- pointer tables

  /** The first n pointers stored in a sector. */
  function Pointers(s: Sector, n: nat): (t: seq<int>)
    requires n <= |s| / 2
    ensures |t| == n
  {
    if n == 0 then [] else Pointers(s, n - 1) + [U16(s, 2 * (n - 1))]
  }

  /** A sector as a table of 256 pointers. */
  function Table(s: Sector): (t: seq<int>)
    ensures |t| == 256
  {
    Pointers(s, |s| / 2)
  }

  lemma {:induction false} PointersAre(s: Sector, n: nat, k: nat)
    requires k < n <= |s| / 2
    ensures Pointers(s, n)[k] == U16(s, 2 * k)
  {
    if k < n - 1 {
      PointersAre(s, n - 1, k);
    }
  }

  lemma TableEntry(s: Sector, k: nat)
    requires k < 256
    ensures Table(s)[k] == U16(s, 2 * k)
  {
    PointersAre(s, |s| / 2, k);
  }

  /** Storing a pointer in a table sector changes that entry of the table and nothing else. */
  lemma TablePut(s: Sector, k: nat, v: int)
    requires k < 256 && 0 <= v < 0x1_0000
    ensures Table(Put(s, 2 * k, Le16(v))) == Table(s)[k := v]
  {
    var s' := Put(s, 2 * k, Le16(v));
    forall j | 0 <= j < 256
      ensures Table(s')[j] == Table(s)[k := v][j]
    {
      TableEntry(s, j);
      TableEntry(s', j);
      if j == k {
        assert s'[2 * k] == v % 256 && s'[2 * k + 1] == v / 256;
      } else {
        assert s'[2 * j] == s[2 * j] && s'[2 * j + 1] == s[2 * j + 1];
      }
    }
  }

  function ZeroTable(): seq<int> {
    seq(256, k => 0)
  }

  /** The pointer table behind a raw pointer; no pointers when the pointer is absent or out of range. */
  function TableAt(img: Image, l: Layout, p: int): (t: seq<int>)
    requires l.Holds(img)
    ensures |t| == 256
  {
    if 1 <= p <= l.Blocks() then Table(img[l.PtrLba(p)]) else ZeroTable()
  }

  lemma TableAtRange(img: Image, l: Layout, p: int, k: nat)
    requires l.Holds(img) && k < 256
    ensures 0 <= TableAt(img, l, p)[k] < 0x1_0000
  {
    if 1 <= p <= l.Blocks() {
      TableEntry(img[l.PtrLba(p)], k);
    }
  }

  // ---------------------------------------------------------------- inodes

  datatype Inode = Inode(used: int, typ: int, parent: int, size: int, blocks: seq<int>, ind: int, dbl: int)
  {
    /** The values the packed format can hold. */
    ghost predicate Packable() {
      && 0 <= used < 256 && 0 <= typ < 256 && 0 <= parent < 0x1_0000 && 0 <= size < 0x1_0000_0000
      && |blocks| == 8 && (forall k | 0 <= k < 8 :: 0 <= blocks[k] < 0x1_0000)
      && 0 <= ind < 0x1_0000 && 0 <= dbl < 0x1_0000
    }

    predicate Blank() {
      typ == 0 && parent == 0 && size == 0 && ind == 0 && dbl == 0 && forall k | 0 <= k < |blocks| :: blocks[k] == 0
    }
  }

  function NoBlocks(): seq<int> {
    seq(8, k => 0)
  }

  function FreeInode(): Inode {
    Inode(0, 0, 0, 0, NoBlocks(), 0, 0)
  }

  function DecodeInode(s: Sector): (n: Inode)
    ensures n.Packable()
  {
    Inode(s[0], s[1], U16(s, 2), U32(s, 4),
          seq(8, k requires 0 <= k < 8 => U16(s, 8 + 2 * k)), U16(s, 24), U16(s, 26))
  }

  function PackBlocks(blocks: seq<int>): (bs: seq<byte>)
    requires forall k | 0 <= k < |blocks| :: 0 <= blocks[k] < 0x1_0000
    ensures |bs| == 2 * |blocks|
  {
    if |blocks| == 0 then [] else PackBlocks(blocks[..|blocks| - 1]) + Le16(blocks[|blocks| - 1])
  }

  lemma {:induction false} UnpackBlocks(blocks: seq<int>, k: nat)
    requires forall i | 0 <= i < |blocks| :: 0 <= blocks[i] < 0x1_0000
    requires k < |blocks|
    ensures U16(PackBlocks(blocks), 2 * k) == blocks[k]
  {
    if k < |blocks| - 1 {
      UnpackBlocks(blocks[..|blocks| - 1], k);
    }
  }

  function EncodeInode(n: Inode): Sector
    requires n.Packable()
  {
    Put(Put(Put(ZeroSector(), 0, [n.used, n.typ] + Le16(n.parent) + Le32(n.size)), 8, PackBlocks(n.blocks)),
        24, Le16(n.ind) + Le16(n.dbl))
  }

  /** Reading back an inode sector yields the inode that was written. */
  lemma DecodeEncode(n: Inode)
    requires n.Packable()
    ensures DecodeInode(EncodeInode(n)) == n
  {
    var header := [n.used, n.typ] + Le16(n.parent) + Le32(n.size);
    var body := PackBlocks(n.blocks);
    var tail := Le16(n.ind) + Le16(n.dbl);
    var s := EncodeInode(n);
    assert s[..8] == header;
    assert s[8..24] == body;
    assert s[24..28] == tail;
    assert forall k | 0 <= k < 8 :: s[k] == s[..8][k];
    assert forall k | 0 <= k < 4 :: s[24 + k] == s[24..28][k];
    var m := DecodeInode(s);
    forall k | 0 <= k < 8
      ensures m.blocks[k] == n.blocks[k]
    {
      assert s[8 + 2 * k] == s[8..24][2 * k] && s[8 + 2 * k + 1] == s[8..24][2 * k + 1];
      UnpackBlocks(n.blocks, k);
    }
    assert m.blocks == n.blocks;
  }

  function InodeTable(img: Image, l: Layout): (inodes: seq<Inode>)
    requires l.Holds(img)
    ensures |inodes| == INODES
    ensures forall i | 0 <= i < INODES :: inodes[i] == DecodeInode(img[l.InodeLba(i)])
  {
    LayoutFits(l);
    seq(INODES, i requires 0 <= i < INODES => DecodeInode(img[l.InodeLba(i)]))
  }

  // ---------------------------------------------------------------- which blocks an inode references

  /** How often p occurs among the first n entries of a table. */
  function Count(t: seq<int>, n: nat, p: int): nat
    requires n <= |t|
  {
    if n == 0 then 0 else Count(t, n - 1, p) + (if t[n - 1] == p then 1 else 0)
  }

  function Occ(t: seq<int>, p: int): nat {
    Count(t, |t|, p)
  }

  /** How often p occurs in the inner tables behind the first n entries of a double-indirect table. */
  ghost function InnerRefs(img: Image, l: Layout, outer: seq<int>, n: nat, p: int): nat
    requires l.Holds(img) && n <= |outer|
  {
    if n == 0 then 0
    else InnerRefs(img, l, outer, n - 1, p) + Occ(TableAt(img, l, outer[n - 1]), p)
  }

  /** How often an inode references raw pointer p: among its direct pointers, as a table, or in any of its tables. */
  ghost function Refs(img: Image, l: Layout, n: Inode, p: int): nat
    requires l.Holds(img)
  {
    Occ(n.blocks, p) + (if n.ind == p then 1 else 0) + (if n.dbl == p then 1 else 0)
    + Occ(TableAt(img, l, n.ind), p) + Occ(TableAt(img, l, n.dbl), p)
    + InnerRefs(img, l, TableAt(img, l, n.dbl), |TableAt(img, l, n.dbl)|, p)
  }

  ghost predicate InRange(img: Image, l: Layout, n: Inode)
    requires l.Holds(img)
  {
    forall p :: Refs(img, l, n, p) > 0 ==> p <= l.Blocks()
  }

  /** How often raw pointer p is referenced by the first n inodes that are in use. */
  ghost function Total(img: Image, l: Layout, inodes: seq<Inode>, n: nat, p: int): nat
    requires l.Holds(img) && n <= |inodes|
  {
    if n == 0 then 0
    else Total(img, l, inodes, n - 1, p) + (if inodes[n - 1].used != 0 then Refs(img, l, inodes[n - 1], p) else 0)
  }

  function DoubleBlockOf(img: Image, l: Layout, n: Inode, x: nat): int
    requires l.Holds(img)
  {
    if x / 256 < 256 then TableAt(img, l, TableAt(img, l, n.dbl)[x / 256])[x % 256] else 0
  }

  /** The raw pointer of a logical block of a file, 0 when the file has no such block. */
  function BlockOf(img: Image, l: Layout, n: Inode, logical: nat): int
    requires l.Holds(img) && |n.blocks| == 8
  {
    if logical < 8 then n.blocks[logical]
    else if logical < 264 then TableAt(img, l, n.ind)[logical - 8]
    else DoubleBlockOf(img, l, n, logical - 264)
  }

  lemma {:induction false} CountHas(t: seq<int>, n: nat, k: nat)
    requires k < n <= |t|
    ensures Count(t, n, t[k]) >= 1
  {
    if k < n - 1 {
      CountHas(t, n - 1, k);
    }
  }

  lemma OccHas(t: seq<int>, k: nat)
    requires k < |t|
    ensures Occ(t, t[k]) >= 1
  {
    CountHas(t, |t|, k);
  }

  lemma {:induction false} InnerRefsAtLeast(img: Image, l: Layout, outer: seq<int>, n: nat, i: nat, p: int)
    requires l.Holds(img) && i < n <= |outer|
    ensures InnerRefs(img, l, outer, n, p) >= Occ(TableAt(img, l, outer[i]), p)
  {
    if i < n - 1 {
      InnerRefsAtLeast(img, l, outer, n - 1, i, p);
    }
  }

  lemma InnerRefsHas(img: Image, l: Layout, outer: seq<int>, n: nat, i: nat, j: nat)
    requires l.Holds(img) && i < n <= |outer| && j < 256
    ensures InnerRefs(img, l, outer, n, TableAt(img, l, outer[i])[j]) >= 1
  {
    InnerRefsAtLeast(img, l, outer, n, i, TableAt(img, l, outer[i])[j]);
    OccHas(TableAt(img, l, outer[i]), j);
  }

  lemma DoubleReferenced(img: Image, l: Layout, n: Inode, x: nat)
    requires l.Holds(img) && x / 256 < 256
    ensures Refs(img, l, n, DoubleBlockOf(img, l, n, x)) >= 1
  {
    var outer := TableAt(img, l, n.dbl);
    InnerRefsHas(img, l, outer, |outer|, x / 256, x % 256);
  }

  lemma SingleReferenced(img: Image, l: Layout, n: Inode, k: nat)
    requires l.Holds(img) && k < 256
    ensures Refs(img, l, n, TableAt(img, l, n.ind)[k]) >= 1
  {
    OccHas(TableAt(img, l, n.ind), k);
  }

  /** Every block a file maps is among the pointers its inode references. */
  lemma BlockOfReferenced(img: Image, l: Layout, n: Inode, logical: nat, p: int)
    requires l.Holds(img) && |n.blocks| == 8
    requires BlockOf(img, l, n, logical) == p != 0
    ensures Refs(img, l, n, p) >= 1
  {
    if logical < 8 {
      OccHas(n.blocks, logical);
    } else if logical < 264 {
      SingleReferenced(img, l, n, logical - 8);
    } else {
      DoubleReferenced(img, l, n, logical - 264);
    }
  }

  /** Two images agree on every sector an inode references in the first of them. */
  ghost predicate Agree(img: Image, img': Image, l: Layout, n: Inode)
    requires l.Holds(img) && l.Holds(img')
  {
    forall p {:trigger Refs(img, l, n, p)} | 1 <= p <= l.Blocks() && Refs(img, l, n, p) > 0 ::
       img[l.PtrLba(p)] == img'[l.PtrLba(p)]
  }

  lemma TablesFrame(img: Image, img': Image, l: Layout, n: Inode)
    requires l.Holds(img) && l.Holds(img') && Agree(img, img', l, n)
    ensures TableAt(img', l, n.ind) == TableAt(img, l, n.ind)
    ensures TableAt(img', l, n.dbl) == TableAt(img, l, n.dbl)
  {
    assert Refs(img, l, n, n.ind) > 0 && Refs(img, l, n, n.dbl) > 0;
  }

  lemma InnerTableFrame(img: Image, img': Image, l: Layout, n: Inode, k: nat)
    requires l.Holds(img) && l.Holds(img') && Agree(img, img', l, n) && k < 256
    ensures TableAt(img', l, TableAt(img, l, n.dbl)[k]) == TableAt(img, l, TableAt(img, l, n.dbl)[k])
  {
    var outer := TableAt(img, l, n.dbl);
    OccHas(outer, k);
    assert Refs(img, l, n, outer[k]) > 0;
  }

  lemma {:induction false} InnerRefsFrame(img: Image, img': Image, l: Layout, n: Inode, k: nat, p: int)
    requires l.Holds(img) && l.Holds(img') && Agree(img, img', l, n) && k <= 256
    ensures InnerRefs(img', l, TableAt(img, l, n.dbl), k, p) == InnerRefs(img, l, TableAt(img, l, n.dbl), k, p)
  {
    if k > 0 {
      InnerRefsFrame(img, img', l, n, k - 1, p);
      InnerTableFrame(img, img', l, n, k - 1);
    }
  }

  /** What an inode references depends only on the sectors behind its own pointers. */
  lemma RefsFrame(img: Image, img': Image, l: Layout, n: Inode, p: int)
    requires l.Holds(img) && l.Holds(img') && Agree(img, img', l, n)
    ensures Refs(img', l, n, p) == Refs(img, l, n, p)
  {
    TablesFrame(img, img', l, n);
    InnerRefsFrame(img, img', l, n, |TableAt(img, l, n.dbl)|, p);
  }

  lemma BlockOfFrame(img: Image, img': Image, l: Layout, n: Inode, logical: nat)
    requires l.Holds(img) && l.Holds(img') && |n.blocks| == 8 && Agree(img, img', l, n)
    ensures BlockOf(img', l, n, logical) == BlockOf(img, l, n, logical)
  {
    TablesFrame(img, img', l, n);
    if logical >= 264 && (logical - 264) / 256 < 256 {
      InnerTableFrame(img, img', l, n, (logical - 264) / 256);
    }
  }

  lemma SectorFrame(img: Image, img': Image, l: Layout, n: Inode, logical: nat, p: int)
    requires l.Holds(img) && l.Holds(img') && |n.blocks| == 8 && Agree(img, img', l, n)
    requires BlockOf(img, l, n, logical) == p && 1 <= p <= l.Blocks()
    ensures img'[l.PtrLba(p)] == img[l.PtrLba(p)]
  {
    BlockOfReferenced(img, l, n, logical, p);
  }

  // ---------------------------------------------------------------- file contents

  function Ceil(size: nat): nat {
    (size + 511) / 512
  }

  /** Every table the inode leads to is a data block of this file system. */
  predicate TablesOk(img: Image, l: Layout, n: Inode)
    requires l.Holds(img)
  {
    && n.ind <= l.Blocks() && n.dbl <= l.Blocks()
    && forall k | 0 <= k < 256 :: TableAt(img, l, n.dbl)[k] <= l.Blocks()
  }

  /** The sectors of the first n logical blocks, one after the other. */
  function Gather(img: Image, l: Layout, inode: Inode, n: nat): (r: Option<seq<byte>>)
    requires l.Holds(img) && |inode.blocks| == 8
    ensures r.Some? ==> |r.value| == 512 * n
  {
    if n == 0 then Some([])
    else if Gather(img, l, inode, n - 1).None? || !(1 <= BlockOf(img, l, inode, n - 1) <= l.Blocks()) then None
    else Some(Gather(img, l, inode, n - 1).value + img[l.PtrLba(BlockOf(img, l, inode, n - 1))])
  }

  /** The bytes of a file or directory; None stands for an FsError. */
  function ReadFile(img: Image, l: Layout, n: Inode): (r: Option<seq<byte>>)
    requires l.Holds(img) && n.Packable()
    ensures r.Some? ==> |r.value| == n.size
  {
    if !TablesOk(img, l, n) || Gather(img, l, n, Ceil(n.size)).None? then None
    else Some(Gather(img, l, n, Ceil(n.size)).value[..n.size])
  }

  lemma {:induction false} GatherFrame(img: Image, img': Image, l: Layout, inode: Inode, n: nat)
    requires l.Holds(img) && l.Holds(img') && |inode.blocks| == 8
    requires Agree(img, img', l, inode)
    ensures Gather(img', l, inode, n) == Gather(img, l, inode, n)
  {
    if n > 0 {
      GatherFrame(img, img', l, inode, n - 1);
      var p := BlockOf(img, l, inode, n - 1);
      BlockOfFrame(img, img', l, inode, n - 1);
      if 1 <= p <= l.Blocks() {
        SectorFrame(img, img', l, inode, n - 1, p);
      }
    }
  }

  /** What a file contains depends only on the sectors behind its own pointers. */
  lemma ReadFileFrame(img: Image, img': Image, l: Layout, n: Inode)
    requires l.Holds(img) && l.Holds(img') && n.Packable()
    requires Agree(img, img', l, n)
    ensures ReadFile(img', l, n) == ReadFile(img, l, n)
  {
    TablesFrame(img, img', l, n);
    GatherFrame(img, img', l, n, Ceil(n.size));
  }
}

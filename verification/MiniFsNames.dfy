/** Names that the image writer accepts and the checker does not. */
module MiniFsNames {
  import opened Common
  import opened MiniFs
  import opened MiniFsSpec
  import opened MiniFsStore
  import opened MiniFsGrow
  import opened MiniFsDirs
  import opened MiniFsWrite

  /** An image with a directory that cannot be read is rejected. */
  lemma UnreadableRejected(img: Image, img': Image, l: Layout, inodes: seq<Inode>, d: nat)
    requires SameData(img, img', l) && InodeTable(img', l) == inodes && Packed(inodes)
    requires d < INODES && IsDir(inodes[d]) && DirEntries(img, l, inodes, d).None?
    ensures !CheckOk(img', l)
  {
    SameDataFrame(img, img', l, inodes[d]);
    if CheckOk(img', l) {
      StartFrom(img', l);
      DirectoryReads(img', l, inodes, Bits(img', l), d);
      assert false;
    }
  }

  /** Once the bitmap is installed, an image to which an entry has been added is accepted exactly when the name is
      good. */
  lemma AcceptedWhenGood(img: Image, l: Layout, inodes: seq<Inode>, dir: nat, name: seq<byte>, typ: int, c: nat,
                         img2: Image, inodes2: seq<Inode>, bits2: seq<int>, img3: Image)
    requires l.Holds(img) && dir < INODES && |name| < 24 && |inodes| == INODES && IsDir(inodes[dir])
    requires inodes[dir].Packable() && DirEntries(img, l, inodes, dir).Some?
    requires Core(img2, l, inodes2, bits2) && Appended(img, l, inodes, dir, name, typ, c, img2, inodes2, bits2)
    requires BitmapStored(img2, img3, l, bits2, |bits2|)
    ensures CheckOk(img3, l) <==> GoodName(name, DirEntries(img, l, inodes, dir).value)
  {
    CoreZeroOne(img2, l, inodes2, bits2);
    BitmapDone(img2, img3, l, bits2);
    if GoodName(name, DirEntries(img, l, inodes, dir).value) {
      Finished(img2, img3, l, inodes2, bits2);
    } else {
      UnreadableRejected(img2, img3, l, inodes2, dir);
    }
  }

  /** "a/b" */
  function SlashName(): (name: seq<byte>)
    ensures |name| == 3 && 0x2F in name
  {
    [0x61, 0x2F, 0x62]
  }

  lemma SlashIsBad(es: seq<Entry>)
    ensures ValidUtf8(SlashName()) && !GoodName(SlashName(), es)
  {
    var name := SlashName();
    assert name[1..] == [0x2F, 0x62] && name[1..][1..] == [0x62] && name[1..][1..][1..] == [];
    assert ValidUtf8([0x62]) && ValidUtf8([0x2F, 0x62]);
    CNameWhole(name);
    assert name[1] == 0x2F;
  }

  lemma {:induction false} AllFree(bits: seq<int>, n: nat)
    requires n <= |bits| && forall b | 0 <= b < |bits| :: bits[b] == 0
    ensures Count(bits, n, 0) == n
    decreases n
  {
    if n > 0 {
      AllFree(bits, n - 1);
    }
  }

  lemma FreshRoom(img: Image, l: Layout, inodes: seq<Inode>, bits: seq<int>)
    requires l.Holds(img) && OnlyRoot(inodes) && |bits| > 0 && forall b | 0 <= b < |bits| :: bits[b] == 0
    ensures Room(inodes, bits, ROOT) && DirEntries(img, l, inodes, ROOT) == Some([])
  {
    AllFree(bits, |bits|);
    EmptyKids(img, l, inodes, ROOT);
    assert inodes[2].used == 0;
    assert Need(32) == 1;
  }

  /** In an empty file system with a block to spare, the writer adds a file by the name of "a/b" to the root directory
      and reports success; the image it would leave is rejected. */
  method AddSlash(image: Image, l: Layout) returns (ok: bool, written: Image)
    requires l.Holds(image) && Fits32(l) && 0 < l.Blocks() < 0x1_0000
    ensures CheckOk(Formatted(image, l), l)
    ensures ok && !CheckOk(written, l)
  {
    var w := new MiniFsWriter(image, l);
    FormattedOk(image, l);
    FormattedTable(image, l);
    FormattedBits(image, l);
    w.Format();
    ok := w.Examine();
    assert w.inodes == InodeTable(w.data, l);
    FreshRoom(w.data, l, w.inodes, w.bitmap);
    ghost var img, was := w.data, w.inodes;
    SlashIsBad([]);
    var ino;
    ok, ino := w.AddChild(ROOT, SlashName(), FILE);
    CoreZeroOne(w.data, l, w.inodes, w.bitmap);
    written := StoreBitmap(w.data, l, w.bitmap);
    AcceptedWhenGood(img, l, was, ROOT, SlashName(), FILE, ino, w.data, w.inodes, w.bitmap, written);
  }
}

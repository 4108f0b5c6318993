/** What `check --repair` does to an image, as a function, and why the repaired image is acceptable. */
module MiniFsRepair {
  import opened Common
  import opened MiniFs
  import opened MiniFsTree
  import opened MiniFsSpec

  predicate Stale(n: Inode) {
    n.used == 0 && !n.Blank()
  }

  function Freshen(inodes: seq<Inode>): (r: seq<Inode>)
    ensures |r| == |inodes|
    ensures forall i | 0 <= i < |r| :: r[i] == if Stale(inodes[i]) then FreeInode() else inodes[i]
  {
    seq(|inodes|, i requires 0 <= i < |inodes| => if Stale(inodes[i]) then FreeInode() else inodes[i])
  }

  predicate InodeArea(l: Layout, k: int) {
    l.start + 1 <= k < l.start + 1 + INODES
  }

  /** The image with every stale free inode sector zeroed. */
  function ZeroStale(img: Image, l: Layout): (r: Image)
    ensures |r| == |img|
    ensures forall k | 0 <= k < |r| ::
              r[k] == if InodeArea(l, k) && Stale(DecodeInode(img[k])) then ZeroSector() else img[k]
  {
    seq(|img|, k requires 0 <= k < |img| =>
      if InodeArea(l, k) && Stale(DecodeInode(img[k])) then ZeroSector() else img[k])
  }

  /** One sector of a freshly written bitmap: the bytes from block `from` on, zero beyond the last block. */
  function BitmapSector(bits: seq<int>, from: nat): (s: Sector)
    ensures forall o | 0 <= o < 512 :: s[o] == if from + o < |bits| && bits[from + o] != 0 then 1 else 0
  {
    seq(512, o requires 0 <= o < 512 => if from + o < |bits| && bits[from + o] != 0 then 1 else 0)
  }

  function RewrittenSector(img: Image, l: Layout, bits: seq<int>, k: nat): Sector
    requires k < |img|
  {
    if l.BitmapLba() <= k < l.DataLba() then BitmapSector(bits, 512 * (k - l.BitmapLba())) else img[k]
  }

  /** The image with its whole bitmap area rewritten. */
  function SetBitmap(img: Image, l: Layout, bits: seq<int>): (r: Image)
    ensures |r| == |img|
    ensures forall k | 0 <= k < |r| :: r[k] == RewrittenSector(img, l, bits, k)
  {
    seq(|img|, k requires 0 <= k < |img| => RewrittenSector(img, l, bits, k))
  }

  ghost function WantedBit(img: Image, l: Layout, inodes: seq<Inode>, b: nat): int
    requires l.Holds(img) && |inodes| == INODES
  {
    if Total(img, l, inodes, INODES, b + 1) > 0 then 1 else 0
  }

  /** The bitmap that the references of the inodes call for. */
  ghost function Wanted(img: Image, l: Layout, inodes: seq<Inode>): (bits: seq<int>)
    requires l.Holds(img) && |inodes| == INODES
    ensures |bits| == l.Blocks()
    ensures forall b | 0 <= b < |bits| :: bits[b] == WantedBit(img, l, inodes, b)
  {
    seq(l.Blocks(), b requires 0 <= b < l.Blocks() => WantedBit(img, l, inodes, b))
  }

  /** The whole repair.  The bitmap area is only rewritten when some byte of it is wrong. */
  ghost function Repaired(img: Image, l: Layout): (r: Image)
    requires l.Holds(img)
    ensures |r| == |img|
  {
    var want := Wanted(img, l, InodeTable(img, l));
    if Bits(img, l) == want then ZeroStale(img, l) else SetBitmap(ZeroStale(img, l), l, want)
  }

  ghost predicate NoSharing(img: Image, l: Layout, inodes: seq<Inode>)
    requires l.Holds(img) && |inodes| == INODES
  {
    forall p | 1 <= p <= l.Blocks() :: Total(img, l, inodes, INODES, p) <= 1
  }

  /** What a repair cannot fix, and therefore insists on. */
  ghost predicate Repairable(img: Image, l: Layout)
    requires l.Holds(img)
  {
    var inodes := InodeTable(img, l);
    && SuperOk(img, l) && InodesOk(l, Freshen(inodes)) && RefsInRange(img, l, inodes)
    && NoSharing(img, l, inodes)
    && (TreeConsistent(img, l, inodes); Reaches(TreeOf(img, l, inodes)))
  }

  lemma DecodeZero()
    ensures DecodeInode(ZeroSector()) == FreeInode()
  {
    assert DecodeInode(ZeroSector()).blocks == NoBlocks();
  }

  lemma BitmapRoundTrip(img: Image, l: Layout, bits: seq<int>)
    requires l.Holds(img) && |bits| == l.Blocks() && forall b | 0 <= b < |bits| :: 0 <= bits[b] <= 1
    ensures Bits(SetBitmap(img, l, bits), l) == bits
  {
    LayoutFits(l);
    var r := SetBitmap(img, l, bits);
    forall b | 0 <= b < |bits|
      ensures Bits(r, l)[b] == bits[b]
    {
      var k := l.BitmapLba() + b / 512;
      assert l.BitmapLba() <= k < l.DataLba();
      assert 512 * (k - l.BitmapLba()) + b % 512 == b;
      assert r[k][b % 512] == bits[b];
    }
  }

  lemma ZeroStaleInode(img: Image, l: Layout, i: nat)
    requires l.Holds(img) && i < INODES
    ensures InodeTable(ZeroStale(img, l), l)[i] == Freshen(InodeTable(img, l))[i]
  {
    LayoutFits(l);
    var k := l.InodeLba(i);
    assert InodeArea(l, k);
    if Stale(DecodeInode(img[k])) {
      DecodeZero();
      assert ZeroStale(img, l)[k] == ZeroSector();
    } else {
      assert ZeroStale(img, l)[k] == img[k];
    }
  }

  lemma ZeroStaleInodes(img: Image, l: Layout)
    requires l.Holds(img)
    ensures InodeTable(ZeroStale(img, l), l) == Freshen(InodeTable(img, l))
  {
    forall i | 0 <= i < INODES
      ensures InodeTable(ZeroStale(img, l), l)[i] == Freshen(InodeTable(img, l))[i]
    {
      ZeroStaleInode(img, l, i);
    }
  }

  lemma ZeroStaleBits(img: Image, l: Layout)
    requires l.Holds(img)
    ensures SameData(img, ZeroStale(img, l), l)
    ensures Bits(ZeroStale(img, l), l) == Bits(img, l)
  {
    LayoutFits(l);
    var z := ZeroStale(img, l);
    forall b | 0 <= b < l.Blocks()
      ensures Bits(z, l)[b] == Bits(img, l)[b]
    {
      assert z[l.BitmapLba() + b / 512] == img[l.BitmapLba() + b / 512];
    }
  }

  lemma SetBitmapParts(img: Image, l: Layout, bits: seq<int>)
    requires l.Holds(img)
    ensures SameData(img, SetBitmap(img, l, bits), l)
    ensures InodeTable(SetBitmap(img, l, bits), l) == InodeTable(img, l)
  {
    LayoutFits(l);
    assert InodeTable(SetBitmap(img, l, bits), l) == InodeTable(img, l);
  }

  /** A repair leaves the data area alone, turns stale inodes into free ones and installs the wanted bitmap. */
  lemma RepairedParts(img: Image, l: Layout)
    requires l.Holds(img)
    ensures l.Holds(Repaired(img, l)) && SameData(img, Repaired(img, l), l)
    ensures Repaired(img, l)[l.start] == img[l.start]
    ensures InodeTable(Repaired(img, l), l) == Freshen(InodeTable(img, l))
    ensures SameUsed(InodeTable(img, l), Freshen(InodeTable(img, l)))
    ensures Bits(Repaired(img, l), l) == Wanted(img, l, InodeTable(img, l))
  {
    var z := ZeroStale(img, l);
    var want := Wanted(img, l, InodeTable(img, l));
    ZeroStaleInodes(img, l);
    ZeroStaleBits(img, l);
    SetBitmapParts(z, l, want);
    BitmapRoundTrip(z, l, want);
  }

  lemma InRangeFrame(img: Image, img': Image, l: Layout, n: Inode)
    requires SameData(img, img', l) && n.Packable()
    ensures InRange(img', l, n) <==> InRange(img, l, n)
  {
    SameDataFrame(img, img', l, n);
    forall p ensures Refs(img', l, n, p) == Refs(img, l, n, p) {
      RefsFrame(img, img', l, n, p);
    }
  }

  lemma RefsInRangeFrame(img: Image, img': Image, l: Layout, inodes: seq<Inode>, inodes': seq<Inode>)
    requires SameData(img, img', l) && SameUsed(inodes, inodes') && Packed(inodes)
    ensures RefsInRange(img', l, inodes') <==> RefsInRange(img, l, inodes)
  {
    forall i | 0 <= i < INODES && inodes[i].used != 0
      ensures InRange(img', l, inodes'[i]) <==> InRange(img, l, inodes[i])
    {
      InRangeFrame(img, img', l, inodes[i]);
    }
    assert forall i | 0 <= i < INODES :: inodes'[i].used != 0 <==> inodes[i].used != 0;
  }

  /** The walk looks at inode types only where an entry names an inode in use. */
  lemma ReachesFrame(img: Image, img': Image, l: Layout, inodes: seq<Inode>, inodes': seq<Inode>)
    requires SameData(img, img', l) && SameUsed(inodes, inodes') && Packed(inodes) && Packed(inodes')
    requires RootInodeOk(inodes)
    ensures TreeOf(img, l, inodes).Consistent() && TreeOf(img', l, inodes').Consistent()
    ensures Reaches(TreeOf(img', l, inodes')) <==> Reaches(TreeOf(img, l, inodes))
  {
    TreeFrame(img, img', l, inodes, inodes');
    TreeConsistent(img, l, inodes);
    TreeConsistent(img', l, inodes');
    WalkFrame(TreeOf(img, l, inodes), TreeOf(img', l, inodes'), ROOT, {});
    assert forall i | 0 <= i < INODES :: inodes'[i].used != 0 <==> inodes[i].used != 0;
  }

  lemma {:induction false} WalkFrame(t: Tree, t': Tree, ino: int, stack: set<int>)
    requires t.Consistent() && t'.Consistent() && t'.kids == t.kids && SameUsed(t.inodes, t'.inodes)
    requires 0 <= ino < INODES && stack <= AllInodes()
    ensures Walk(t', ino, stack) == Walk(t, ino, stack)
    decreases AllInodes() - stack, 1, 0
  {
    if ino !in stack && t.kids[ino].Some? {
      assert ino in AllInodes() - stack;
      WalkKidsFrame(t, t', ino, |t.kids[ino].value|, stack + {ino});
    }
  }

  lemma {:induction false} WalkKidsFrame(t: Tree, t': Tree, ino: int, n: nat, stack: set<int>)
    requires t.Consistent() && t'.Consistent() && t'.kids == t.kids && SameUsed(t.inodes, t'.inodes)
    requires 0 <= ino < INODES && t.kids[ino].Some? && n <= |t.kids[ino].value| && stack <= AllInodes()
    ensures WalkKids(t', ino, n, stack) == WalkKids(t, ino, n, stack)
    decreases AllInodes() - stack, 2, n
  {
    if n > 0 {
      WalkKidsFrame(t, t', ino, n - 1, stack);
      var c := t.kids[ino].value[n - 1];
      assert t.GoodKid(ino, c);
      WalkFrame(t, t', c, stack);
    }
  }

  /** Counting references in the repaired image gives what it gave before. */
  lemma AccountedAfterRepair(img: Image, l: Layout)
    requires l.Holds(img)
    ensures var r := Repaired(img, l);
            l.Holds(r) && (Accounted(r, l, InodeTable(r, l), Bits(r, l)) <==> NoSharing(img, l, InodeTable(img, l)))
  {
    RepairedParts(img, l);
    var r := Repaired(img, l);
    var inodes := InodeTable(img, l);
    var inodes' := InodeTable(r, l);
    var bits := Bits(r, l);
    forall p | 1 <= p <= l.Blocks()
      ensures Total(r, l, inodes', INODES, p) == Total(img, l, inodes, INODES, p)
      ensures bits[p - 1] == if Total(img, l, inodes, INODES, p) > 0 then 1 else 0
    {
      TotalFrame(img, r, l, inodes, inodes', INODES, p);
    }
    if Accounted(r, l, inodes', bits) {
      forall p | 1 <= p <= l.Blocks()
        ensures Total(img, l, inodes, INODES, p) <= 1
      {
        assert bits[p - 1] == Total(r, l, inodes', |inodes'|, p - 1 + 1) <= 1;
      }
    }
    if NoSharing(img, l, inodes) {
      forall b | 0 <= b < |bits|
        ensures bits[b] == Total(r, l, inodes', |inodes'|, b + 1) <= 1
      {
        assert Total(img, l, inodes, INODES, b + 1) <= 1;
      }
    }
  }

  /** Repair is sound: the repaired image passes a fresh check exactly when the original satisfies everything that
      a repair insists on. */
  lemma RepairSound(img: Image, l: Layout)
    requires l.Holds(img)
    ensures CheckOk(Repaired(img, l), l) <==> Repairable(img, l)
  {
    RepairedParts(img, l);
    AccountedAfterRepair(img, l);
    var r := Repaired(img, l);
    var inodes := InodeTable(img, l);
    RefsInRangeFrame(img, r, l, inodes, Freshen(inodes));
    if RootInodeOk(inodes) {
      ReachesFrame(img, r, l, inodes, Freshen(inodes));
    }
  }

  /** A repair changes no file and no directory: every inode in use keeps its metadata and its bytes, and no inode
      goes in or out of use. */
  lemma RepairKeepsContents(img: Image, l: Layout, i: nat)
    requires l.Holds(img) && i < INODES
    ensures l.Holds(Repaired(img, l))
    ensures var n := InodeTable(img, l)[i];
            var n' := InodeTable(Repaired(img, l), l)[i];
            if n.used == 0 then n'.used == 0
            else n' == n && ReadFile(Repaired(img, l), l, n') == ReadFile(img, l, n)
  {
    RepairedParts(img, l);
    SameDataFrame(img, Repaired(img, l), l, InodeTable(img, l)[i]);
  }

  lemma NothingStale(img: Image, l: Layout)
    requires l.Holds(img) && InodesOk(l, InodeTable(img, l))
    ensures ZeroStale(img, l) == img
  {
    LayoutFits(l);
    var inodes := InodeTable(img, l);
    forall k | 0 <= k < |img|
      ensures ZeroStale(img, l)[k] == img[k]
    {
      if InodeArea(l, k) {
        assert InodeOk(l, inodes, k - l.start - 1);
        assert inodes[k - l.start - 1] == DecodeInode(img[k]);
      }
    }
  }

  lemma BitsWanted(img: Image, l: Layout, inodes: seq<Inode>)
    requires l.Holds(img) && |inodes| == INODES && Accounted(img, l, inodes, Bits(img, l))
    ensures Bits(img, l) == Wanted(img, l, inodes)
  {
    forall b | 0 <= b < l.Blocks()
      ensures Bits(img, l)[b] == Wanted(img, l, inodes)[b]
    {
      assert Bits(img, l)[b] == Total(img, l, inodes, |inodes|, b + 1) <= 1;
    }
  }

  /** An acceptable image needs no repair, so repairing twice is the same as repairing once. */
  lemma RepairIdempotent(img: Image, l: Layout)
    requires CheckOk(img, l)
    ensures Repaired(img, l) == img
  {
    NothingStale(img, l);
    BitsWanted(img, l, InodeTable(img, l));
  }
}

/** Storing a payload in freshly taken blocks: building the pointer tables, copying the data, and why exchanging the
    old blocks of an inode for the new ones keeps the block accounts. */
module MiniFsStore {
  import opened Common
  import opened MiniFs
  import opened MiniFsTree
  import opened MiniFsSpec
  import opened MiniFsCheck
  import opened MiniFsGrow

  /** The number of inner tables behind a double-indirect table for n blocks. */
  function Groups(n: nat): nat {
    (n + 255) / 256
  }

  /** The number of table blocks a file with n data blocks needs. */
  function TablesFor(n: nat): nat {
    if n <= 8 then 0 else if n <= 264 then 1 else 2 + Groups(n - 264)
  }

  /** The number of blocks a payload needs, tables included. */
  function Need(size: nat): nat {
    Ceil(size) + TablesFor(Ceil(size))
  }

  ghost predicate Pointers16(D: seq<int>) {
    forall k | 0 <= k < |D| :: 0 < D[k] < 0x1_0000
  }

  lemma PaddedNext(ptrs: seq<int>, i: nat)
    requires i < |ptrs| <= 256
    ensures Padded(ptrs[..i], 256)[i := ptrs[i]] == Padded(ptrs[..i + 1], 256)
  {
  }

  /** Store pointers in a blank table. */
  method FillTable(blank: Sector, ptrs: seq<int>) returns (s: Sector)
    requires blank == ZeroSector() && |ptrs| <= 256 && Pointers16(ptrs)
    ensures Table(s) == Padded(ptrs, 256)
  {
    s := blank;
    BlankTable();
    for i := 0 to |ptrs|
      invariant Table(s) == Padded(ptrs[..i], 256)
    {
      TablePut(s, i, ptrs[i]);
      PaddedNext(ptrs, i);
      s := Put(s, 2 * i, Le16(ptrs[i]));
    }
    assert ptrs[..|ptrs|] == ptrs;
  }

  lemma BlankTable()
    ensures Table(ZeroSector()) == Padded([], 256)
  {
    forall k | 0 <= k < 256 ensures Table(ZeroSector())[k] == 0 {
      TableEntry(ZeroSector(), k);
    }
  }

  lemma TakeBlock(l: Layout, img: Image, bits: seq<int>, b: nat)
    requires l.Holds(img) && |bits| == l.Blocks() && ZeroOne(bits) && b < |bits| && bits[b] == 0
    ensures 0 <= l.PtrLba(b + 1) < |img|
    ensures Grown(l, img, bits, img[l.PtrLba(b + 1) := ZeroSector()], bits[b := 1], [b + 1])
    ensures Occ(bits[b := 1], 0) == Occ(bits, 0) - 1 && Occ(bits, 0) > 0
  {
    LayoutFits(l);
    OccUpdate(bits, b, 1, 0);
    var A := [b + 1];
    forall p: int ensures Occ(A, p) == if p == b + 1 then 1 else 0 {
      OccOne(b + 1, p);
    }
    OccHas(bits, b);
  }

  lemma NoFreeBlock(bits: seq<int>)
    requires forall b | 0 <= b < |bits| :: bits[b] != 0
    ensures Occ(bits, 0) == 0
  {
    OccNone(bits, 0);
  }

  // ---------------------------------------------------------------- building the double-indirect level

  function Prefix(R: seq<int>, n: nat): (r: seq<int>)
    ensures |r| <= n && |r| <= |R|
  {
    if n <= |R| then R[..n] else R
  }

  function Group(R: seq<int>, g: nat): (r: seq<int>)
    requires 256 * g <= |R|
    ensures |r| <= 256
  {
    if 256 * g + 256 <= |R| then R[256 * g..256 * g + 256] else R[256 * g..]
  }

  lemma PrefixGroup(R: seq<int>, g: nat)
    requires 256 * g <= |R|
    ensures Padded(Prefix(R, 256 * g), 256 * g) + Padded(Group(R, g), 256) ==
            Padded(Prefix(R, 256 * (g + 1)), 256 * (g + 1))
  {
  }

  lemma PaddedSnoc(inner: seq<int>, q: int)
    requires |inner| < 256
    ensures Padded(inner, 256)[|inner| := q] == Padded(inner + [q], 256)
  {
  }

  /** The pieces of a growing double-indirect level: the outer table and the inner tables stored so far. */
  ghost predicate DoublePart(l: Layout, img: Image, outer: int, inner: seq<int>, R: seq<int>)
    requires l.Holds(img)
  {
    && |inner| <= 256 && |R| <= 256 * |inner|
    && TableAt(img, l, outer) == Padded(inner, 256)
    && InnerTables(img, l, Padded(inner, 256), |inner|) == Padded(R, 256 * |inner|)
  }

  /** What a newly taken block was not: any block taken before. */
  lemma NewBlock(l: Layout, img: Image, bits: seq<int>, img1: Image, bits1: seq<int>, A: seq<int>, q: int, p: int)
    requires ZeroOne(bits) && Grown(l, img, bits, img1, bits1, A) && 1 <= q <= l.Blocks() && bits1[q - 1] == 0
    requires Occ(A, p) > 0
    ensures p != q && 1 <= p <= l.Blocks() && bits1[p - 1] == 1 && bits[p - 1] == 0
  {
  }

  lemma TakenBit(l: Layout, img: Image, bits: seq<int>, img1: Image, bits1: seq<int>, q: int)
    requires ZeroOne(bits) && Grown(l, img, bits, img1, bits1, [q])
    ensures 1 <= q <= l.Blocks() && bits[q - 1] == 0
  {
    OccOne(q, q);
    assert Occ([q], q) > 0;
  }

  lemma InnerIsTaken(outer: int, inner: seq<int>, k: nat)
    requires k < |inner|
    ensures Occ([outer] + inner, inner[k]) >= 1 + if inner[k] == outer then 1 else 0
  {
    OccAppend([outer], inner, inner[k]);
    OccOne(outer, inner[k]);
    OccHas(inner, k);
  }

  /** Storing a new inner table in a fresh block q and its pointer in the outer table. */
  lemma DoubleStep(l: Layout, img: Image, bits: seq<int>, img1: Image, bits1: seq<int>, img2: Image, bits2: seq<int>,
                   outer: int, inner: seq<int>, q: int, R: seq<int>, group: seq<int>, img3: Image)
    requires ZeroOne(bits) && Grown(l, img, bits, img1, bits1, [outer] + inner) && ZeroOne(bits1)
    requires Grown(l, img1, bits1, img2, bits2, [q]) && 0 < q < 0x1_0000 && 1 <= outer <= l.Blocks() && |inner| < 256
    requires |group| <= 256 && TableAt(img2, l, q) == Padded(group, 256)
    requires DoublePart(l, img1, outer, inner, R) && 0 <= l.PtrLba(outer) < |img2|
    requires img3 == img2[l.PtrLba(outer) := Put(img2[l.PtrLba(outer)], 2 * |inner|, Le16(q))]
    ensures Grown(l, img, bits, img3, bits2, [outer] + (inner + [q]))
    ensures TableAt(img3, l, outer) == Padded(inner + [q], 256)
    ensures InnerTables(img3, l, Padded(inner + [q], 256), |inner| + 1) ==
            Padded(R, 256 * |inner|) + Padded(group, 256)
  {
    var A := [outer] + inner;
    OccAppend([outer], inner, outer);
    OccOne(outer, outer);
    TakenBit(l, img1, bits1, img2, bits2, q);
    GrownTwice(l, img, bits, img1, bits1, img2, bits2, A, [q]);
    assert A + [q] == [outer] + (inner + [q]);
    OccAppend(A, [q], outer);
    GrownWrite(l, img, bits, img2, bits2, A + [q], outer, Put(img2[l.PtrLba(outer)], 2 * |inner|, Le16(q)));
    NewBlock(l, img, bits, img1, bits1, A, q, outer);
    assert img2[l.PtrLba(outer)] == img1[l.PtrLba(outer)];
    TablePut(img2[l.PtrLba(outer)], |inner|, q);
    PaddedSnoc(inner, q);
    DoubleInner(l, img, bits, img1, bits1, img2, outer, inner, q, img3);
    assert TableAt(img3, l, q) == TableAt(img2, l, q);
    assert Padded(inner + [q], 256)[|inner|] == q;
  }

  lemma DoubleInner(l: Layout, img: Image, bits: seq<int>, img1: Image, bits1: seq<int>, img2: Image,
                    outer: int, inner: seq<int>, q: int, img3: Image)
    requires ZeroOne(bits) && Grown(l, img, bits, img1, bits1, [outer] + inner)
    requires l.Holds(img2) && Spared(img1, img2, l, bits1) && 1 <= q <= l.Blocks() && bits1[q - 1] == 0
    requires 1 <= outer <= l.Blocks() && |inner| < 256 && 0 <= l.PtrLba(outer) < |img2|
    requires l.Holds(img3) && |img3| == |img2|
    requires forall k | 0 <= k < |img2| && k != l.PtrLba(outer) :: img3[k] == img2[k]
    ensures InnerTables(img3, l, Padded(inner + [q], 256), |inner|) == InnerTables(img1, l, Padded(inner, 256), |inner|)
  {
    LayoutFits(l);
    var A := [outer] + inner;
    forall k | 0 <= k < |inner|
      ensures TableAt(img3, l, inner[k]) == TableAt(img1, l, inner[k])
    {
      InnerIsTaken(outer, inner, k);
      NewBlock(l, img, bits, img1, bits1, A, q, inner[k]);
      assert Occ(A, inner[k]) <= 1;
      assert img2[l.PtrLba(inner[k])] == img1[l.PtrLba(inner[k])];
    }
    InnerTablesSame(img1, img3, l, Padded(inner, 256), Padded(inner + [q], 256), |inner|);
  }

  /** The state of the construction after some inner tables have been stored. */
  ghost predicate DoubleSoFar(l: Layout, img: Image, bits: seq<int>, img1: Image, bits1: seq<int>, outer: int,
                              inner: seq<int>, R: seq<int>) {
    && Grown(l, img, bits, img1, bits1, [outer] + inner) && ZeroOne(bits) && ZeroOne(bits1)
    && 1 <= outer <= l.Blocks() < 0x1_0000
    && DoublePart(l, img1, outer, inner, Prefix(R, 256 * |inner|))
  }

  lemma DoubleStart(l: Layout, img: Image, bits: seq<int>, img1: Image, bits1: seq<int>, outer: int, R: seq<int>)
    requires Grown(l, img, bits, img1, bits1, [outer]) && ZeroOne(bits) && 1 <= outer <= l.Blocks() < 0x1_0000
    requires TableAt(img1, l, outer) == Padded([], 256)
    ensures DoubleSoFar(l, img, bits, img1, bits1, outer, [], R)
  {
    assert [outer] + [] == [outer];
    assert Prefix(R, 0) == [];
    GrownZeroOne(l, img, bits, img1, bits1, [outer]);
  }

  lemma DoubleNext(l: Layout, img: Image, bits: seq<int>, img1: Image, bits1: seq<int>, img2: Image, bits2: seq<int>,
                   outer: int, inner: seq<int>, q: int, R: seq<int>, img3: Image)
    requires DoubleSoFar(l, img, bits, img1, bits1, outer, inner, R) && |inner| < 256 && 256 * |inner| <= |R|
    requires Grown(l, img1, bits1, img2, bits2, [q]) && 0 < q < 0x1_0000
    requires TableAt(img2, l, q) == Padded(Group(R, |inner|), 256) && 0 <= l.PtrLba(outer) < |img2|
    requires img3 == img2[l.PtrLba(outer) := Put(img2[l.PtrLba(outer)], 2 * |inner|, Le16(q))]
    ensures DoubleSoFar(l, img, bits, img3, bits2, outer, inner + [q], R)
  {
    DoubleStep(l, img, bits, img1, bits1, img2, bits2, outer, inner, q, Prefix(R, 256 * |inner|), Group(R, |inner|),
      img3);
    PrefixGroup(R, |inner|);
    GrownZeroOne(l, img1, bits1, img2, bits2, [q]);
  }

  // ---------------------------------------------------------------- putting a file together

  lemma RestPointers(D: seq<int>)
    requires Pointers16(D)
    ensures Pointers16(Middle(D)) && Pointers16(Rest(D))
  {
    forall k | 0 <= k < |Middle(D)| ensures 0 < Middle(D)[k] < 0x1_0000 {
      assert Middle(D)[k] == D[k + 8];
    }
    forall k | 0 <= k < |Rest(D)| ensures 0 < Rest(D)[k] < 0x1_0000 {
      assert Rest(D)[k] == D[k + 264];
    }
  }

  lemma LaidSmall(img: Image, l: Layout, D: seq<int>)
    requires l.Holds(img) && |D| <= 8
    ensures Laid(img, l, D, 0, 0, []) && Tables(0, 0, []) == []
  {
    assert ZeroTable() == Padded([], 256);
    assert InnerTables(img, l, Padded([], 256), 0) == Padded([], 0);
  }

  lemma LaidMedium(img: Image, l: Layout, D: seq<int>, ind: int)
    requires l.Holds(img) && 8 < |D| <= 264 && ind != 0 && TableAt(img, l, ind) == Padded(Middle(D), 256)
    ensures Laid(img, l, D, ind, 0, []) && Tables(ind, 0, []) == [ind]
  {
    assert ZeroTable() == Padded([], 256);
    assert InnerTables(img, l, Padded([], 256), 0) == Padded([], 0);
  }

  lemma LaidLarge(l: Layout, img1: Image, bits1: seq<int>, img2: Image, D: seq<int>, ind: int, outer: int,
                  inner: seq<int>)
    requires l.Holds(img1) && l.Holds(img2) && |bits1| == l.Blocks() && Spared(img1, img2, l, bits1)
    requires 264 < |D| && 1 <= ind <= l.Blocks() && bits1[ind - 1] != 0 && outer != 0
    requires TableAt(img1, l, ind) == Padded(Middle(D), 256) && DoublePart(l, img2, outer, inner, Rest(D))
    ensures Laid(img2, l, D, ind, outer, inner) && Tables(ind, outer, inner) == [ind] + ([outer] + inner)
  {
    assert img2[l.PtrLba(ind)] == img1[l.PtrLba(ind)];
  }

  lemma {:induction false} CountMonotone(t: seq<int>, m: nat, n: nat, p: int)
    requires m <= n <= |t|
    ensures Count(t, m, p) <= Count(t, n, p)
    decreases n
  {
    if m < n {
      CountMonotone(t, m, n - 1, p);
    }
  }

  /** Entries of a sequence without repetition differ. */
  lemma Different(D: seq<int>, j: nat, k: nat)
    requires j < k < |D| && Occ(D, D[k]) <= 1
    ensures D[j] != D[k]
  {
    if D[j] == D[k] {
      CountHas(D, k, j);
      CountMonotone(D, k + 1, |D|, D[k]);
    }
  }

  lemma AllTaken(l: Layout, img: Image, bits: seq<int>, img1: Image, bits1: seq<int>, A: seq<int>, D: seq<int>)
    requires ZeroOne(bits) && Grown(l, img, bits, img1, bits1, A)
    requires forall p {:trigger Occ(D, p)} :: Occ(D, p) <= Occ(A, p)
    ensures InData(l, D) && forall x | 0 <= x < |D| :: Occ(A, D[x]) > 0
  {
    forall x | 0 <= x < |D|
      ensures 1 <= D[x] <= l.Blocks() && Occ(A, D[x]) == 1 == Occ(D, D[x])
    {
      OccHas(D, x);
      assert Occ(A, D[x]) > 0;
      assert bits[D[x] - 1] + Occ(A, D[x]) <= 1;
    }
  }

  ghost predicate InData(l: Layout, D: seq<int>) {
    forall x | 0 <= x < |D| :: 1 <= D[x] <= l.Blocks() && Occ(D, D[x]) == 1
  }

  /** The first n chunks of the payload are in place, and only blocks of D have been written. */
  ghost predicate ChunksDone(l: Layout, was: Image, img: Image, D: seq<int>, payload: seq<byte>, n: nat)
    requires l.Holds(was) && l.Holds(img) && InData(l, D) && n <= |D| == Ceil(|payload|)
  {
    && (forall p {:trigger l.PtrLba(p)} | 1 <= p <= l.Blocks() && Occ(D, p) == 0 ::
      img[l.PtrLba(p)] == was[l.PtrLba(p)])
    && (forall x | 0 <= x < n :: Holds(img, l, D, payload, x))
  }

  lemma PutHolds(img: Image, l: Layout, D: seq<int>, payload: seq<byte>, n: nat, img': Image)
    requires l.Holds(img) && n < |D| && 1 <= D[n] <= l.Blocks() && 512 * n <= |payload| && 0 <= l.PtrLba(D[n]) < |img|
    requires img' == img[l.PtrLba(D[n]) := Put(img[l.PtrLba(D[n])], 0, Chunk(payload, n))]
    ensures l.Holds(img') && Holds(img', l, D, payload, n)
  {
    LayoutFits(l);
    var s := Put(img[l.PtrLba(D[n])], 0, Chunk(payload, n));
    assert s[..|Chunk(payload, n)|] == Chunk(payload, n);
  }

  lemma PutElsewhere(img: Image, l: Layout, D: seq<int>, payload: seq<byte>, n: nat, img': Image, x: nat)
    requires l.Holds(img) && x < n < |D| && InData(l, D) && 512 * n <= |payload| && 0 <= l.PtrLba(D[n]) < |img|
    requires img' == img[l.PtrLba(D[n]) := Put(img[l.PtrLba(D[n])], 0, Chunk(payload, n))]
    requires Holds(img, l, D, payload, x)
    ensures l.Holds(img') && Holds(img', l, D, payload, x)
  {
    Different(D, x, n);
  }

  lemma PutSpares(img: Image, l: Layout, D: seq<int>, n: nat, img': Image, s: Sector, p: int)
    requires l.Holds(img) && n < |D| && 0 <= l.PtrLba(D[n]) < |img| && img' == img[l.PtrLba(D[n]) := s]
    requires 1 <= p <= l.Blocks() && Occ(D, p) == 0
    ensures l.Holds(img') && 0 <= l.PtrLba(p) < |img| && img'[l.PtrLba(p)] == img[l.PtrLba(p)]
  {
    LayoutFits(l);
    OccHas(D, n);
  }

  lemma ChunkStep(l: Layout, was: Image, img: Image, D: seq<int>, payload: seq<byte>, n: nat, img': Image)
    requires l.Holds(was) && l.Holds(img) && InData(l, D) && n < |D| == Ceil(|payload|)
    requires ChunksDone(l, was, img, D, payload, n) && 0 <= l.PtrLba(D[n]) < |img|
    requires img' == img[l.PtrLba(D[n]) := Put(img[l.PtrLba(D[n])], 0, Chunk(payload, n))]
    ensures l.Holds(img') && ChunksDone(l, was, img', D, payload, n + 1)
  {
    PutHolds(img, l, D, payload, n, img');
    forall p {:trigger l.PtrLba(p)} | 1 <= p <= l.Blocks() && Occ(D, p) == 0
      ensures 0 <= l.PtrLba(p) < |was| && 0 <= l.PtrLba(p) < |img'| && img'[l.PtrLba(p)] == was[l.PtrLba(p)]
    {
      LayoutFits(l);
      PutSpares(img, l, D, n, img', Put(img[l.PtrLba(D[n])], 0, Chunk(payload, n)), p);
      assert img[l.PtrLba(p)] == was[l.PtrLba(p)];
    }
    forall x | 0 <= x < n + 1 ensures Holds(img', l, D, payload, x) {
      if x < n {
        PutElsewhere(img, l, D, payload, n, img', x);
      }
    }
  }

  // ---------------------------------------------------------------- replacing the contents of an inode

  lemma {:induction false} CountBound(t: seq<int>, n: nat, p: int)
    requires n <= |t|
    ensures Count(t, n, p) <= n
  {
    if n > 0 {
      CountBound(t, n - 1, p);
    }
  }

  function WithContents(n: Inode, size: nat, D: seq<int>, ind: int, dbl: int): Inode {
    n.(size := size, blocks := Padded(Direct(D), 8), ind := ind, dbl := dbl)
  }

  lemma WithContentsPackable(n: Inode, size: nat, D: seq<int>, ind: int, dbl: int)
    requires n.Packable() && size < 0x1_0000_0000 && Pointers16(D) && 0 <= ind < 0x1_0000 && 0 <= dbl < 0x1_0000
    ensures WithContents(n, size, D, ind, dbl).Packable() && HasLayout(WithContents(n, size, D, ind, dbl), D, ind, dbl)
  {
  }

  /** The blocks behind the pointers in `notes` have been given back. */
  ghost predicate Freed(bits: seq<int>, notes: seq<int>, bits': seq<int>) {
    |bits'| == |bits| && forall p {:trigger Occ(notes, p)} | 1 <= p <= |bits| ::
      bits'[p - 1] == if Occ(notes, p) > 0 then 0 else bits[p - 1]
  }

  lemma ExchangeBits(img: Image, l: Layout, inodes: seq<Inode>, bits: seq<int>, img1: Image, bits1: seq<int>, ino: nat,
                     A: seq<int>, notes: seq<int>, bits2: seq<int>, p: int)
    requires Core(img, l, inodes, bits) && Grown(l, img, bits, img1, bits1, A) && ino < INODES && inodes[ino].used != 0
    requires notes == Notes(img, l, inodes[ino]) && |bits2| == l.Blocks() && 1 <= p <= l.Blocks()
    requires bits2[p - 1] == if Occ(notes, p) > 0 then 0 else bits1[p - 1]
    ensures bits2[p - 1] == bits[p - 1] + Occ(A, p) - Refs(img, l, inodes[ino], p)
  {
    NotesCount(img, l, inodes[ino], p);
    MarkedWhenReferenced(img, l, inodes, bits, ino, p);
    assert bits1[p - 1] == bits[p - 1] + Occ(A, p) <= 1;
  }

  lemma ExchangeDone(img: Image, l: Layout, inodes: seq<Inode>, bits: seq<int>, img1: Image, bits1: seq<int>, ino: nat,
                     n: Inode, D: seq<int>, ind: int, dbl: int, inner: seq<int>, notes: seq<int>, bits2: seq<int>)
    requires Core(img, l, inodes, bits) && Grown(l, img, bits, img1, bits1, D + Tables(ind, dbl, inner))
    requires ino < INODES && inodes[ino].used != 0 && Laid(img1, l, D, ind, dbl, inner) && HasLayout(n, D, ind, dbl)
    requires notes == Notes(img, l, inodes[ino]) && |bits2| == l.Blocks()
    requires Freed(bits1, notes, bits2)
    ensures Exchanged(img, img1, l, inodes, bits, ino, n, D + Tables(ind, dbl, inner), bits2)
  {
    var A := D + Tables(ind, dbl, inner);
    forall p | p != 0 ensures Refs(img1, l, n, p) == Occ(A, p) {
      LaidRefs(img1, l, n, D, ind, dbl, inner, p);
    }
    forall p {:trigger bits2[p - 1]} | 1 <= p <= l.Blocks()
      ensures bits2[p - 1] == bits[p - 1] + Occ(A, p) - Refs(img, l, inodes[ino], p)
    {
      ExchangeBits(img, l, inodes, bits, img1, bits1, ino, A, notes, bits2, p);
    }
  }

  lemma TablesInData(l: Layout, img: Image, bits: seq<int>, img1: Image, bits1: seq<int>, D: seq<int>, ind: int,
                     dbl: int, inner: seq<int>)
    requires Grown(l, img, bits, img1, bits1, D + Tables(ind, dbl, inner))
    ensures AtMost(inner, l.Blocks())
  {
    forall k | 0 <= k < |inner| ensures inner[k] <= l.Blocks() {
      TablesMember(ind, dbl, inner, k);
      if inner[k] != 0 {
        OccAppend(D, Tables(ind, dbl, inner), inner[k]);
        assert Occ(D + Tables(ind, dbl, inner), inner[k]) > 0;
      }
    }
  }

  // ---------------------------------------------------------------- the old blocks of an inode

  ghost predicate Within(t: seq<int>, low: int, high: int) {
    forall k | 0 <= k < |t| :: low <= t[k] <= high
  }

  ghost predicate Positive(t: seq<int>) {
    forall k | 0 <= k < |t| :: t[k] > 0
  }

  lemma OccSnoc(t: seq<int>, x: int, p: int)
    ensures Occ(t + [x], p) == Occ(t, p) + if x == p then 1 else 0
  {
    OccAppend(t, [x], p);
    OccOne(x, p);
  }

  /** The pointers of a list that are present. */
  method Present(t: seq<int>) returns (r: seq<int>)
    requires forall k | 0 <= k < |t| :: t[k] >= 0
    ensures Positive(r) && forall p {:trigger Occ(r, p)} | p != 0 :: Occ(r, p) == Occ(t, p)
  {
    r := [];
    for i := 0 to |t|
      invariant Positive(r) && forall p {:trigger Occ(r, p)} | p != 0 :: Occ(r, p) == Count(t, i, p)
    {
      ghost var was := r;
      if t[i] != 0 {
        r := r + [t[i]];
      }
      forall p {:trigger Occ(r, p)} | p != 0 ensures Occ(r, p) == Count(t, i + 1, p) {
        assert Occ(was, p) == Count(t, i, p);
        OccSnoc(was, t[i], p);
      }
    }
  }

  /** How often a pointer occurs among the first n entries of an outer table and in the tables behind them. */
  ghost function OuterRefs(img: Image, l: Layout, outer: seq<int>, n: nat, p: int): int
    requires l.Holds(img) && n <= |outer|
  {
    Count(outer, n, p) + InnerRefs(img, l, outer, n, p)
  }

  lemma OuterNext(img: Image, l: Layout, outer: seq<int>, k: nat, p: int, was: int)
    requires l.Holds(img) && k < |outer| && p != 0 && OuterRefs(img, l, outer, k, p) == was
    ensures OuterRefs(img, l, outer, k + 1, p) ==
            was + if outer[k] == 0 then 0 else (if outer[k] == p then 1 else 0) + Occ(TableAt(img, l, outer[k]), p)
  {
    if outer[k] == 0 {
      OccNone(ZeroTable(), p);
    }
  }

  lemma OccThree(a: seq<int>, x: int, b: seq<int>, p: int)
    ensures Occ(a + [x] + b, p) == Occ(a, p) + (if x == p then 1 else 0) + Occ(b, p)
  {
    OccAppend(a + [x], b, p);
    OccSnoc(a, x, p);
  }

  method PresentTable(img: Image, l: Layout, q: int) returns (r: seq<int>)
    requires l.Holds(img)
    ensures Positive(r) && forall p {:trigger Occ(r, p)} | p != 0 :: Occ(r, p) == Occ(TableAt(img, l, q), p)
  {
    forall k | 0 <= k < 256 ensures TableAt(img, l, q)[k] >= 0 {
      TableAtRange(img, l, q, k);
    }
    r := Present(TableAt(img, l, q));
  }

  /** The inner tables that are present, and the pointers that are present in them. */
  method OldInner(img: Image, l: Layout, outer: seq<int>) returns (blocks: seq<int>)
    requires l.Holds(img) && forall k | 0 <= k < |outer| :: outer[k] >= 0
    ensures Positive(blocks)
    ensures forall p {:trigger Occ(blocks, p)} | p != 0 :: Occ(blocks, p) == OuterRefs(img, l, outer, |outer|, p)
  {
    blocks := [];
    for k := 0 to |outer|
      invariant Positive(blocks)
      invariant forall p {:trigger Occ(blocks, p)} | p != 0 :: Occ(blocks, p) == OuterRefs(img, l, outer, k, p)
    {
      ghost var was := blocks;
      if outer[k] != 0 {
        var t := PresentTable(img, l, outer[k]);
        blocks := blocks + [outer[k]] + t;
        forall p {:trigger Occ(blocks, p)} | p != 0 ensures Occ(blocks, p) == OuterRefs(img, l, outer, k + 1, p) {
          OuterNext(img, l, outer, k, p, Occ(was, p));
          OccThree(was, outer[k], t, p);
          assert Occ(t, p) == Occ(TableAt(img, l, outer[k]), p);
        }
      } else {
        forall p {:trigger Occ(blocks, p)} | p != 0 ensures Occ(blocks, p) == OuterRefs(img, l, outer, k + 1, p) {
          OuterNext(img, l, outer, k, p, Occ(was, p));
        }
      }
    }
  }

  /** How often a pointer p is referenced by way of a single-indirect pointer q. */
  ghost function ByTable(img: Image, l: Layout, q: int, p: int): int
    requires l.Holds(img)
  {
    (if q == p then 1 else 0) + Occ(TableAt(img, l, q), p)
  }

  /** And by way of a double-indirect pointer q. */
  ghost function ByTables(img: Image, l: Layout, q: int, p: int): int
    requires l.Holds(img)
  {
    (if q == p then 1 else 0) + OuterRefs(img, l, TableAt(img, l, q), |TableAt(img, l, q)|, p)
  }

  method OldSingle(img: Image, l: Layout, q: int) returns (blocks: seq<int>)
    requires l.Holds(img) && q >= 0
    ensures Positive(blocks) && forall p {:trigger Occ(blocks, p)} | p != 0 :: Occ(blocks, p) == ByTable(img, l, q, p)
  {
    blocks := [];
    if q != 0 {
      var t := PresentTable(img, l, q);
      blocks := [q] + t;
      forall p {:trigger Occ(blocks, p)} | p != 0 ensures Occ(blocks, p) == ByTable(img, l, q, p) {
        OccAppend([q], t, p);
        OccOne(q, p);
        assert Occ(t, p) == Occ(TableAt(img, l, q), p);
      }
    } else {
      forall p {:trigger Occ(blocks, p)} | p != 0 ensures Occ(blocks, p) == ByTable(img, l, q, p) {
        OccNone(ZeroTable(), p);
      }
    }
  }

  method OldDouble(img: Image, l: Layout, q: int) returns (blocks: seq<int>)
    requires l.Holds(img) && q >= 0
    ensures Positive(blocks) && forall p {:trigger Occ(blocks, p)} | p != 0 :: Occ(blocks, p) == ByTables(img, l, q, p)
  {
    blocks := [];
    if q != 0 {
      forall k | 0 <= k < 256 ensures TableAt(img, l, q)[k] >= 0 {
        TableAtRange(img, l, q, k);
      }
      var t := OldInner(img, l, TableAt(img, l, q));
      blocks := [q] + t;
      forall p {:trigger Occ(blocks, p)} | p != 0 ensures Occ(blocks, p) == ByTables(img, l, q, p) {
        OccAppend([q], t, p);
        OccOne(q, p);
        assert Occ(t, p) == OuterRefs(img, l, TableAt(img, l, q), |TableAt(img, l, q)|, p);
      }
    } else {
      forall p {:trigger Occ(blocks, p)} | p != 0 ensures Occ(blocks, p) == ByTables(img, l, q, p) {
        OccNone(ZeroTable(), p);
        NoInnerRefs(img, l, |ZeroTable()|, p);
      }
    }
  }

  lemma RefsParts(img: Image, l: Layout, n: Inode, p: int)
    requires l.Holds(img)
    ensures Refs(img, l, n, p) == Occ(n.blocks, p) + ByTable(img, l, n.ind, p) + ByTables(img, l, n.dbl, p)
  {
  }

  /** The blocks of an inode, data and tables, listed by the writer's own scan: each as often as the inode references
      it. */
  method OldBlocks(img: Image, l: Layout, n: Inode) returns (blocks: seq<int>)
    requires l.Holds(img) && n.Packable()
    ensures Positive(blocks) && forall p {:trigger Occ(blocks, p)} | p != 0 :: Occ(blocks, p) == Refs(img, l, n, p)
  {
    var direct := Present(n.blocks);
    var single := OldSingle(img, l, n.ind);
    var double := OldDouble(img, l, n.dbl);
    blocks := direct + single + double;
    forall p {:trigger Occ(blocks, p)} | p != 0 ensures Occ(blocks, p) == Refs(img, l, n, p) {
      OccAppend(direct + single, double, p);
      OccAppend(direct, single, p);
      RefsParts(img, l, n, p);
      assert Occ(direct, p) == Occ(n.blocks, p) && Occ(single, p) == ByTable(img, l, n.ind, p);
      assert Occ(double, p) == ByTables(img, l, n.dbl, p);
    }
  }

  /** They are data blocks of the region when the inode's pointers are in range. */
  lemma OldWithin(img: Image, l: Layout, n: Inode, blocks: seq<int>)
    requires l.Holds(img) && InRange(img, l, n) && Positive(blocks)
    requires forall p {:trigger Occ(blocks, p)} | p != 0 :: Occ(blocks, p) == Refs(img, l, n, p)
    ensures Within(blocks, 1, l.Blocks())
  {
    forall k | 0 <= k < |blocks| ensures blocks[k] <= l.Blocks() {
      OccHas(blocks, k);
      assert Occ(blocks, blocks[k]) == Refs(img, l, n, blocks[k]);
    }
  }

  /** The writer's scan and the checker's name the same blocks. */
  lemma FreedAlike(img: Image, l: Layout, n: Inode, blocks: seq<int>, bits: seq<int>, bits': seq<int>)
    requires l.Holds(img) && Freed(bits, blocks, bits')
    requires forall p {:trigger Occ(blocks, p)} | p != 0 :: Occ(blocks, p) == Refs(img, l, n, p)
    ensures Freed(bits, Notes(img, l, n), bits')
  {
    forall p {:trigger Occ(Notes(img, l, n), p)} | 1 <= p <= |bits|
      ensures bits'[p - 1] == if Occ(Notes(img, l, n), p) > 0 then 0 else bits[p - 1]
    {
      NotesCount(img, l, n, p);
      assert Occ(blocks, p) == Refs(img, l, n, p);
    }
  }

  /** No block is both a data block and a table of the same file. */
  lemma TablesApart(l: Layout, img: Image, bits: seq<int>, img1: Image, bits1: seq<int>, D: seq<int>, T: seq<int>,
                    p: int)
    requires ZeroOne(bits) && Grown(l, img, bits, img1, bits1, D + T) && Occ(T, p) > 0
    ensures Occ(D, p) == 0
  {
    OccAppend(D, T, p);
    assert Occ(D + T, p) > 0;
    assert bits[p - 1] + Occ(D + T, p) <= 1;
  }

  /** Copying the data in does not disturb the tables. */
  lemma LaidAfterChunks(l: Layout, img: Image, bits: seq<int>, was: Image, img1: Image, bits1: seq<int>, D: seq<int>,
                        ind: int, dbl: int, inner: seq<int>, payload: seq<byte>)
    requires ZeroOne(bits) && Grown(l, img, bits, img1, bits1, D + Tables(ind, dbl, inner)) && l.Holds(was)
    requires InData(l, D) && |D| == Ceil(|payload|) && ChunksDone(l, was, img1, D, payload, |D|)
    requires Laid(was, l, D, ind, dbl, inner)
    ensures Laid(img1, l, D, ind, dbl, inner)
  {
    forall p {:trigger l.PtrLba(p)} | 1 <= p <= l.Blocks() && Occ(Tables(ind, dbl, inner), p) > 0
      ensures img1[l.PtrLba(p)] == was[l.PtrLba(p)]
    {
      TablesApart(l, img, bits, img1, bits1, D, Tables(ind, dbl, inner), p);
    }
    LaidFrame(was, img1, l, D, ind, dbl, inner);
  }

  /** A payload has been laid out in the blocks A taken since img, in the way the pointers say. */
  ghost predicate PayloadStored(l: Layout, img: Image, bits: seq<int>, img1: Image, bits1: seq<int>, D: seq<int>,
                                ind: int, dbl: int, inner: seq<int>, payload: seq<byte>) {
    && Grown(l, img, bits, img1, bits1, D + Tables(ind, dbl, inner)) && Laid(img1, l, D, ind, dbl, inner)
    && 0 <= ind <= l.Blocks() && 0 <= dbl <= l.Blocks() < 0x1_0000
    && InData(l, D) && |D| == Ceil(|payload|) <= l.Blocks()
    && forall x | 0 <= x < |D| :: Holds(img1, l, D, payload, x)
  }

  lemma StoredReads(l: Layout, img: Image, bits: seq<int>, img1: Image, bits1: seq<int>, D: seq<int>, ind: int,
                    dbl: int, inner: seq<int>, payload: seq<byte>, n: Inode)
    requires PayloadStored(l, img, bits, img1, bits1, D, ind, dbl, inner, payload) && n.Packable()
    ensures WithContents(n, |payload|, D, ind, dbl).Packable()
    ensures HasLayout(WithContents(n, |payload|, D, ind, dbl), D, ind, dbl)
    ensures ReadFile(img1, l, WithContents(n, |payload|, D, ind, dbl)) == Some(payload)
  {
    WithContentsPackable(n, |payload|, D, ind, dbl);
    TablesInData(l, img, bits, img1, bits1, D, ind, dbl, inner);
    ReadBack(img1, l, WithContents(n, |payload|, D, ind, dbl), D, ind, dbl, inner, payload);
  }

  /** Replacing the contents of one inode keeps every rule about inodes and blocks, the new contents read back, and
      no other block in use has changed. */
  lemma ContentsReplaced(l: Layout, img: Image, inodes: seq<Inode>, bits: seq<int>, img1: Image, bits1: seq<int>,
                         ino: nat, D: seq<int>, ind: int, dbl: int, inner: seq<int>, payload: seq<byte>,
                         bits2: seq<int>, img2: Image)
    requires Core(img, l, inodes, bits) && ino < INODES && inodes[ino].used != 0
    requires PayloadStored(l, img, bits, img1, bits1, D, ind, dbl, inner, payload) && |bits2| == l.Blocks()
    requires Freed(bits1, Notes(img, l, inodes[ino]), bits2)
    requires WithContents(inodes[ino], |payload|, D, ind, dbl).Packable()
    requires Stored(img1, img2, l, inodes, ino, WithContents(inodes[ino], |payload|, D, ind, dbl))
    ensures var n := WithContents(inodes[ino], |payload|, D, ind, dbl);
            && Core(img2, l, inodes[ino := n], bits2) && Spared(img, img2, l, bits)
            && ReadFile(img2, l, n) == Some(payload)
  {
    var n := WithContents(inodes[ino], |payload|, D, ind, dbl);
    var A := D + Tables(ind, dbl, inner);
    StoredReads(l, img, bits, img1, bits1, D, ind, dbl, inner, payload, inodes[ino]);
    ExchangeDone(img, l, inodes, bits, img1, bits1, ino, n, D, ind, dbl, inner, Notes(img, l, inodes[ino]), bits2);
    assert InodeOk(l, inodes, ino);
    ReplaceKeepsCore(img, img1, img2, l, inodes, bits, bits1, ino, n, A, bits2);
    MetadataTable(img, img1, l);
    StoredTable(img1, img2, l, inodes, ino, n);
    SameDataFrame(img1, img2, l, n);
  }
}

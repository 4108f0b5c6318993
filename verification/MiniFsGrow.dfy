/** Why the image writer keeps a file system sound: what allocation may touch, how a file is laid out over the three
    levels of pointers, and what replacing one inode does to the block accounts.  Blocks are named by raw pointers. */
module MiniFsGrow {
  import opened Common
  import opened MiniFs
  import opened MiniFsTree
  import opened MiniFsSpec
  import opened MiniFsCheck

  // ---------------------------------------------------------------- counting

  lemma {:induction false} CountUpdate(t: seq<int>, n: nat, k: nat, v: int, p: int)
    requires n <= |t| && k < |t|
    ensures Count(t[k := v], n, p) ==
            Count(t, n, p) + if k >= n then 0 else (if v == p then 1 else 0) - (if t[k] == p then 1 else 0)
  {
    if n > 0 {
      CountUpdate(t, n - 1, k, v, p);
    }
  }

  lemma OccUpdate(t: seq<int>, k: nat, v: int, p: int)
    requires k < |t|
    ensures Occ(t[k := v], p) == Occ(t, p) + (if v == p then 1 else 0) - (if t[k] == p then 1 else 0)
  {
    CountUpdate(t, |t|, k, v, p);
  }

  lemma {:induction false} CountFinds(t: seq<int>, n: nat, p: int) returns (k: nat)
    requires n <= |t| && Count(t, n, p) > 0
    ensures k < n && t[k] == p
  {
    if t[n - 1] == p {
      k := n - 1;
    } else {
      k := CountFinds(t, n - 1, p);
    }
  }

  /** s followed by zeros up to length n. */
  function Padded(s: seq<int>, n: nat): (r: seq<int>)
    requires |s| <= n
    ensures |r| == n && forall k | 0 <= k < n :: r[k] == if k < |s| then s[k] else 0
  {
    s + seq(n - |s|, k => 0)
  }

  lemma {:induction false} CountPadded(s: seq<int>, n: nat, m: nat, p: int)
    requires |s| <= n && m <= n && p != 0
    ensures Count(Padded(s, n), m, p) == Count(s, if m <= |s| then m else |s|, p)
    decreases m
  {
    if m > 0 {
      CountPadded(s, n, m - 1, p);
    }
  }

  lemma OccPadded(s: seq<int>, n: nat, p: int)
    requires |s| <= n && p != 0
    ensures Occ(Padded(s, n), p) == Occ(s, p)
  {
    CountPadded(s, n, n, p);
  }

  // ---------------------------------------------------------------- what allocation may change

  /** Every block that is marked in `bits` has the same contents in both images. */
  ghost predicate Spared(img: Image, img': Image, l: Layout, bits: seq<int>)
    requires l.Holds(img) && l.Holds(img') && |bits| == l.Blocks()
  {
    forall p {:trigger l.PtrLba(p)} | 1 <= p <= l.Blocks() && bits[p - 1] != 0 :: img'[l.PtrLba(p)] == img[l.PtrLba(p)]
  }

  ghost predicate SameMetadata(img: Image, img': Image, l: Layout)
    requires l.Holds(img)
  {
    |img'| == |img| && forall k | 0 <= k < |img| && !(l.DataLba() <= k < l.DataLba() + l.Blocks()) :: img'[k] == img[k]
  }

  /** Exactly the blocks A, all free before and pairwise different, have been taken, and no other sector was touched. */
  ghost predicate Grown(l: Layout, img: Image, bits: seq<int>, img': Image, bits': seq<int>, A: seq<int>) {
    && l.Holds(img) && l.Holds(img') && |bits| == |bits'| == l.Blocks()
    && SameMetadata(img, img', l) && Spared(img, img', l, bits)
    && (forall p {:trigger Occ(A, p)} | 1 <= p <= l.Blocks() :: bits'[p - 1] == bits[p - 1] + Occ(A, p) <= 1)
    && (forall p {:trigger Occ(A, p)} :: Occ(A, p) > 0 ==> 1 <= p <= l.Blocks())
  }

  ghost predicate ZeroOne(bits: seq<int>) {
    forall b | 0 <= b < |bits| :: 0 <= bits[b] <= 1
  }

  lemma GrownNothing(l: Layout, img: Image, bits: seq<int>)
    requires l.Holds(img) && |bits| == l.Blocks() && ZeroOne(bits)
    ensures Grown(l, img, bits, img, bits, [])
  {
  }

  lemma GrownTwice(l: Layout, img: Image, bits: seq<int>, img1: Image, bits1: seq<int>, img2: Image, bits2: seq<int>,
                   A: seq<int>, B: seq<int>)
    requires ZeroOne(bits) && Grown(l, img, bits, img1, bits1, A) && Grown(l, img1, bits1, img2, bits2, B)
    ensures Grown(l, img, bits, img2, bits2, A + B) && ZeroOne(bits1)
  {
    forall p: int
      ensures Occ(A + B, p) == Occ(A, p) + Occ(B, p)
    {
      OccAppend(A, B, p);
    }
    forall p | 1 <= p <= l.Blocks() && bits[p - 1] != 0
      ensures bits1[p - 1] != 0 && img2[l.PtrLba(p)] == img[l.PtrLba(p)]
    {
      assert Occ(A, p) >= 0;
    }
    forall b | 0 <= b < |bits| ensures 0 <= bits1[b] <= 1 {
      assert bits1[b + 1 - 1] == bits[b + 1 - 1] + Occ(A, b + 1);
    }
  }

  /** Writing into a block that has just been taken. */
  lemma GrownWrite(l: Layout, img: Image, bits: seq<int>, img1: Image, bits1: seq<int>, A: seq<int>, q: int, s: Sector)
    requires ZeroOne(bits) && Grown(l, img, bits, img1, bits1, A) && Occ(A, q) > 0
    ensures 0 <= l.PtrLba(q) < |img1| && Grown(l, img, bits, img1[l.PtrLba(q) := s], bits1, A)
  {
    LayoutFits(l);
    assert bits[q - 1] == 0;
  }

  lemma GrownZeroOne(l: Layout, img: Image, bits: seq<int>, img1: Image, bits1: seq<int>, A: seq<int>)
    requires ZeroOne(bits) && Grown(l, img, bits, img1, bits1, A)
    ensures ZeroOne(bits1)
  {
    forall b | 0 <= b < |bits| ensures 0 <= bits1[b] <= 1 {
      assert bits1[b + 1 - 1] == bits[b + 1 - 1] + Occ(A, b + 1);
    }
  }

  // ---------------------------------------------------------------- laying a file out

  lemma AppendSame(a: seq<int>, a': seq<int>, b: seq<int>, b': seq<int>)
    requires a == a' && b == b'
    ensures a + b == a' + b'
  {
  }

  lemma {:induction false} InnerTablesSame(img: Image, img': Image, l: Layout, outer: seq<int>, outer': seq<int>,
                                           n: nat)
    requires l.Holds(img) && l.Holds(img') && n <= |outer| && n <= |outer'|
    requires forall k | 0 <= k < n :: outer'[k] == outer[k] && TableAt(img', l, outer[k]) == TableAt(img, l, outer[k])
    ensures InnerTables(img', l, outer', n) == InnerTables(img, l, outer, n)
    decreases n
  {
    if n > 0 {
      InnerTablesSame(img, img', l, outer, outer', n - 1);
      AppendSame(InnerTables(img, l, outer, n - 1), InnerTables(img', l, outer', n - 1),
                 TableAt(img, l, outer[n - 1]), TableAt(img', l, outer'[n - 1]));
    }
  }

  /** Absent inner tables only add zeros. */
  lemma {:induction false} InnerTablesTail(img: Image, l: Layout, inner: seq<int>, R: seq<int>, n: nat)
    requires l.Holds(img) && |inner| <= n <= 256 && |R| <= 256 * |inner|
    requires InnerTables(img, l, Padded(inner, 256), |inner|) == Padded(R, 256 * |inner|)
    ensures InnerTables(img, l, Padded(inner, 256), n) == Padded(R, 256 * n)
    decreases n
  {
    if n > |inner| {
      InnerTablesTail(img, l, inner, R, n - 1);
      assert TableAt(img, l, Padded(inner, 256)[n - 1]) == ZeroTable();
    }
  }

  /** The tables of a file whose data blocks are D: the single-indirect table holds D[8..264], the double-indirect one
      names the inner tables, and these hold the rest. */
  ghost predicate Laid(img: Image, l: Layout, D: seq<int>, ind: int, dbl: int, inner: seq<int>)
    requires l.Holds(img)
  {
    && (|D| <= 8 ==> ind == 0) && (|D| <= 264 ==> dbl == 0 && inner == [])
    && TableAt(img, l, ind) == Padded(Middle(D), 256)
    && |inner| <= 256 && |D| - 264 <= 256 * |inner|
    && TableAt(img, l, dbl) == Padded(inner, 256)
    && InnerTables(img, l, Padded(inner, 256), |inner|) == Padded(Rest(D), 256 * |inner|)
    && (dbl == 0 ==> |D| <= 264)
  }

  function Direct(D: seq<int>): seq<int> {
    if |D| <= 8 then D else D[..8]
  }

  function Middle(D: seq<int>): seq<int> {
    if |D| <= 8 then [] else if |D| <= 264 then D[8..] else D[8..264]
  }

  function Rest(D: seq<int>): seq<int> {
    if |D| <= 264 then [] else D[264..]
  }

  /** The blocks that hold tables. */
  function Tables(ind: int, dbl: int, inner: seq<int>): seq<int> {
    (if ind == 0 then [] else [ind]) + ((if dbl == 0 then [] else [dbl]) + inner)
  }

  ghost predicate HasLayout(n: Inode, D: seq<int>, ind: int, dbl: int) {
    n.blocks == Padded(Direct(D), 8) && n.ind == ind && n.dbl == dbl
  }

  lemma PaddedParts(D: seq<int>, m: nat)
    requires |Rest(D)| <= m
    ensures Padded(Direct(D), 8) + Padded(Middle(D), 256) + Padded(Rest(D), m) == Padded(D, 264 + m)
  {
  }

  lemma LaidDouble(img: Image, l: Layout, D: seq<int>, ind: int, dbl: int, inner: seq<int>)
    requires l.Holds(img) && Laid(img, l, D, ind, dbl, inner)
    ensures |Rest(D)| <= |DoubleLogical(img, l, dbl)|
    ensures DoubleLogical(img, l, dbl) == Padded(Rest(D), |DoubleLogical(img, l, dbl)|)
  {
    if dbl != 0 {
      InnerTablesTail(img, l, inner, Rest(D), |TableAt(img, l, dbl)|);
    }
  }

  /** A file laid out over D has D as its logical blocks and nothing beyond. */
  lemma LaidLogical(img: Image, l: Layout, n: Inode, D: seq<int>, ind: int, dbl: int, inner: seq<int>)
    requires l.Holds(img) && Laid(img, l, D, ind, dbl, inner) && HasLayout(n, D, ind, dbl)
    ensures |D| <= |Logical(img, l, n)| && Logical(img, l, n) == Padded(D, |Logical(img, l, n)|)
  {
    LaidDouble(img, l, D, ind, dbl, inner);
    PaddedParts(D, |DoubleLogical(img, l, dbl)|);
  }

  /** Logical blocks are read back block by block. */
  lemma LaidBlockOf(img: Image, l: Layout, n: Inode, D: seq<int>, ind: int, dbl: int, inner: seq<int>, x: nat)
    requires l.Holds(img) && Laid(img, l, D, ind, dbl, inner) && HasLayout(n, D, ind, dbl) && x < |D|
    ensures BlockOf(img, l, n, x) == D[x]
  {
    LaidLogical(img, l, n, D, ind, dbl, inner);
    LogicalAt(img, l, n, x);
  }

  lemma {:induction false} InnerRefsCount(img: Image, l: Layout, outer: seq<int>, n: nat, p: int)
    requires l.Holds(img) && n <= |outer|
    ensures InnerRefs(img, l, outer, n, p) == Occ(InnerTables(img, l, outer, n), p)
    decreases n
  {
    if n > 0 {
      InnerRefsCount(img, l, outer, n - 1, p);
      OccAppend(InnerTables(img, l, outer, n - 1), TableAt(img, l, outer[n - 1]), p);
    }
  }

  lemma {:induction false} NoInnerRefs(img: Image, l: Layout, n: nat, p: int)
    requires l.Holds(img) && n <= |ZeroTable()| && p != 0
    ensures InnerRefs(img, l, ZeroTable(), n, p) == 0
    decreases n
  {
    if n > 0 {
      NoInnerRefs(img, l, n - 1, p);
      OccNone(ZeroTable(), p);
    }
  }

  /** The inner tables reference exactly the blocks of D beyond the first 264. */
  lemma LaidInnerRefs(img: Image, l: Layout, D: seq<int>, ind: int, dbl: int, inner: seq<int>, p: int)
    requires l.Holds(img) && Laid(img, l, D, ind, dbl, inner) && p != 0
    ensures InnerRefs(img, l, TableAt(img, l, dbl), |TableAt(img, l, dbl)|, p) == Occ(Rest(D), p)
  {
    if dbl != 0 {
      InnerTablesTail(img, l, inner, Rest(D), |TableAt(img, l, dbl)|);
      InnerRefsCount(img, l, TableAt(img, l, dbl), |TableAt(img, l, dbl)|, p);
      OccPadded(Rest(D), 256 * |TableAt(img, l, dbl)|, p);
    } else {
      NoInnerRefs(img, l, |ZeroTable()|, p);
    }
  }

  lemma OccParts(D: seq<int>, p: int)
    ensures Occ(D, p) == Occ(Direct(D), p) + Occ(Middle(D), p) + Occ(Rest(D), p)
  {
    assert D == Direct(D) + (Middle(D) + Rest(D));
    OccAppend(Direct(D), Middle(D) + Rest(D), p);
    OccAppend(Middle(D), Rest(D), p);
  }

  lemma OccTables(ind: int, dbl: int, inner: seq<int>, p: int)
    requires p != 0
    ensures Occ(Tables(ind, dbl, inner), p) == (if ind == p then 1 else 0) + (if dbl == p then 1 else 0) + Occ(inner, p)
  {
    OccOne(ind, p);
    OccOne(dbl, p);
    OccAppend(if ind == 0 then [] else [ind], (if dbl == 0 then [] else [dbl]) + inner, p);
    OccAppend(if dbl == 0 then [] else [dbl], inner, p);
  }

  /** A file laid out over D references its data blocks and its tables, once each, and nothing else. */
  lemma LaidRefs(img: Image, l: Layout, n: Inode, D: seq<int>, ind: int, dbl: int, inner: seq<int>, p: int)
    requires l.Holds(img) && Laid(img, l, D, ind, dbl, inner) && HasLayout(n, D, ind, dbl) && p != 0
    ensures Refs(img, l, n, p) == Occ(D + Tables(ind, dbl, inner), p)
  {
    OccAppend(D, Tables(ind, dbl, inner), p);
    OccParts(D, p);
    OccTables(ind, dbl, inner, p);
    OccPadded(Direct(D), 8, p);
    OccPadded(Middle(D), 256, p);
    OccPadded(inner, 256, p);
    LaidInnerRefs(img, l, D, ind, dbl, inner, p);
  }

  lemma TablesMember(ind: int, dbl: int, inner: seq<int>, k: nat)
    requires k < |inner|
    ensures Occ(inner, inner[k]) >= 1
    ensures inner[k] != 0 ==> Occ(Tables(ind, dbl, inner), inner[k]) >= 1
  {
    OccHas(inner, k);
    if inner[k] != 0 {
      OccTables(ind, dbl, inner, inner[k]);
    }
  }

  /** The layout of a file depends only on the sectors of its tables. */
  lemma LaidFrame(img: Image, img': Image, l: Layout, D: seq<int>, ind: int, dbl: int, inner: seq<int>)
    requires l.Holds(img) && l.Holds(img') && Laid(img, l, D, ind, dbl, inner)
    requires forall p {:trigger l.PtrLba(p)} | 1 <= p <= l.Blocks() && Occ(Tables(ind, dbl, inner), p) > 0 ::
               img'[l.PtrLba(p)] == img[l.PtrLba(p)]
    ensures Laid(img', l, D, ind, dbl, inner)
  {
    forall p | 1 <= p <= l.Blocks() && (p == ind || p == dbl)
      ensures TableAt(img', l, p) == TableAt(img, l, p)
    {
      OccTables(ind, dbl, inner, p);
    }
    forall k | 0 <= k < |inner|
      ensures TableAt(img', l, inner[k]) == TableAt(img, l, inner[k])
    {
      TablesMember(ind, dbl, inner, k);
    }
    InnerTablesSame(img, img', l, Padded(inner, 256), Padded(inner, 256), |inner|);
  }

  // ---------------------------------------------------------------- reading back

  /** Block x of D holds the matching 512 bytes of the payload, or what there is of them. */
  ghost predicate Holds(img: Image, l: Layout, D: seq<int>, payload: seq<byte>, x: nat)
    requires l.Holds(img) && x < |D| && 1 <= D[x] <= l.Blocks() && 512 * x <= |payload|
  {
    LayoutFits(l);
    img[l.PtrLba(D[x])][..|Chunk(payload, x)|] == Chunk(payload, x)
  }

  function Chunk(payload: seq<byte>, x: nat): (c: seq<byte>)
    requires 512 * x <= |payload|
    ensures |c| <= 512
  {
    if 512 * x + 512 <= |payload| then payload[512 * x..512 * x + 512] else payload[512 * x..]
  }

  function UpTo(payload: seq<byte>, k: nat): (m: nat)
    ensures m <= |payload| && m <= 512 * k
  {
    if 512 * k <= |payload| then 512 * k else |payload|
  }

  lemma AppendChunk(g: seq<byte>, s: Sector, payload: seq<byte>, k: nat)
    requires |g| == 512 * k && 512 * k <= |payload|
    requires g == payload[..512 * k] && s[..|Chunk(payload, k)|] == Chunk(payload, k)
    ensures (g + s)[..UpTo(payload, k + 1)] == payload[..UpTo(payload, k + 1)]
  {
    assert payload[..UpTo(payload, k + 1)] == payload[..512 * k] + Chunk(payload, k);
    assert (g + s)[..UpTo(payload, k + 1)] == g + s[..|Chunk(payload, k)|];
  }

  lemma {:induction false} GatherReads(img: Image, l: Layout, n: Inode, D: seq<int>, payload: seq<byte>, k: nat)
    requires l.Holds(img) && |n.blocks| == 8 && k <= |D| == Ceil(|payload|)
    requires forall x | 0 <= x < |D| :: BlockOf(img, l, n, x) == D[x]
    requires forall x | 0 <= x < |D| :: 1 <= D[x] <= l.Blocks() && Holds(img, l, D, payload, x)
    ensures Gather(img, l, n, k).Some?
    ensures Gather(img, l, n, k).value[..UpTo(payload, k)] == payload[..UpTo(payload, k)]
    decreases k
  {
    if k > 0 {
      GatherReads(img, l, n, D, payload, k - 1);
      assert Holds(img, l, D, payload, k - 1);
      LayoutFits(l);
      AppendChunk(Gather(img, l, n, k - 1).value, img[l.PtrLba(D[k - 1])], payload, k - 1);
    }
  }

  lemma WholePayload(g: seq<byte>, payload: seq<byte>)
    requires |g| == 512 * Ceil(|payload|)
    ensures |payload| <= |g| && payload[..|payload|] == payload
  {
  }

  lemma LaidTablesOk(img: Image, l: Layout, n: Inode, D: seq<int>, ind: int, dbl: int, inner: seq<int>)
    requires l.Holds(img) && Laid(img, l, D, ind, dbl, inner) && HasLayout(n, D, ind, dbl)
    requires ind <= l.Blocks() && dbl <= l.Blocks() && AtMost(inner, l.Blocks())
    ensures TablesOk(img, l, n)
  {
  }

  /** Reading undoes writing, for every payload length. */
  lemma ReadBack(img: Image, l: Layout, n: Inode, D: seq<int>, ind: int, dbl: int, inner: seq<int>, payload: seq<byte>)
    requires l.Holds(img) && n.Packable() && n.size == |payload|
    requires Laid(img, l, D, ind, dbl, inner) && HasLayout(n, D, ind, dbl) && |D| == Ceil(|payload|)
    requires forall x | 0 <= x < |D| :: 1 <= D[x] <= l.Blocks() && Holds(img, l, D, payload, x)
    requires ind <= l.Blocks() && dbl <= l.Blocks() && AtMost(inner, l.Blocks())
    ensures ReadFile(img, l, n) == Some(payload)
  {
    forall x | 0 <= x < |D| ensures BlockOf(img, l, n, x) == D[x] {
      LaidBlockOf(img, l, n, D, ind, dbl, inner, x);
    }
    GatherReads(img, l, n, D, payload, |D|);
    LaidTablesOk(img, l, n, D, ind, dbl, inner);
    WholePayload(Gather(img, l, n, |D|).value, payload);
  }

  // ---------------------------------------------------------------- the block accounts

  /** Everything the checker requires except the shape of the directory tree, with the bitmap still in memory. */
  ghost predicate Core(img: Image, l: Layout, inodes: seq<Inode>, bits: seq<int>) {
    && l.Holds(img) && inodes == InodeTable(img, l) && |bits| == l.Blocks()
    && SuperOk(img, l) && InodesOk(l, inodes) && RefsInRange(img, l, inodes) && Accounted(img, l, inodes, bits)
  }

  lemma CoreZeroOne(img: Image, l: Layout, inodes: seq<Inode>, bits: seq<int>)
    requires Core(img, l, inodes, bits)
    ensures ZeroOne(bits)
  {
  }

  lemma {:induction false} TotalAtLeast(img: Image, l: Layout, inodes: seq<Inode>, n: nat, i: nat, p: int)
    requires l.Holds(img) && i < n <= |inodes| && inodes[i].used != 0
    ensures Total(img, l, inodes, n, p) >= Refs(img, l, inodes[i], p)
    decreases n
  {
    if i < n - 1 {
      TotalAtLeast(img, l, inodes, n - 1, i, p);
    }
  }

  lemma MarkedWhenReferenced(img: Image, l: Layout, inodes: seq<Inode>, bits: seq<int>, i: nat, p: int)
    requires Core(img, l, inodes, bits) && i < INODES && inodes[i].used != 0 && 1 <= p <= l.Blocks()
    ensures Refs(img, l, inodes[i], p) <= bits[p - 1] <= 1
  {
    TotalAtLeast(img, l, inodes, |inodes|, i, p);
    AccountedBit(img, l, inodes, bits, p);
  }

  /** Sparing the marked blocks spares every inode in use. */
  lemma SparedAgree(img: Image, img': Image, l: Layout, inodes: seq<Inode>, bits: seq<int>, i: nat)
    requires Core(img, l, inodes, bits) && l.Holds(img') && Spared(img, img', l, bits)
    requires i < INODES && inodes[i].used != 0
    ensures Agree(img, img', l, inodes[i])
  {
    forall p | 1 <= p <= l.Blocks() && Refs(img, l, inodes[i], p) > 0
      ensures img'[l.PtrLba(p)] == img[l.PtrLba(p)]
    {
      MarkedWhenReferenced(img, l, inodes, bits, i, p);
    }
  }

  /** Files and directories in use read as before. */
  lemma SparedReads(img: Image, img': Image, l: Layout, inodes: seq<Inode>, bits: seq<int>, i: nat)
    requires Core(img, l, inodes, bits) && l.Holds(img') && Spared(img, img', l, bits)
    requires i < INODES && inodes[i].used != 0
    ensures ReadFile(img', l, inodes[i]) == ReadFile(img, l, inodes[i])
  {
    SparedAgree(img, img', l, inodes, bits, i);
    ReadFileFrame(img, img', l, inodes[i]);
  }

  lemma SparedRefs(img: Image, img': Image, l: Layout, inodes: seq<Inode>, bits: seq<int>, i: nat, p: int)
    requires Core(img, l, inodes, bits) && l.Holds(img') && Spared(img, img', l, bits)
    requires i < INODES && inodes[i].used != 0
    ensures Refs(img', l, inodes[i], p) == Refs(img, l, inodes[i], p)
  {
    SparedAgree(img, img', l, inodes, bits, i);
    RefsFrame(img, img', l, inodes[i], p);
  }

  /** What each inode adds to the account of a block. */
  ghost function Shares(img: Image, l: Layout, inodes: seq<Inode>, p: int): (r: seq<int>)
    requires l.Holds(img)
    ensures |r| == |inodes|
    ensures forall i | 0 <= i < |r| :: r[i] == if inodes[i].used != 0 then Refs(img, l, inodes[i], p) else 0
  {
    seq(|inodes|, i requires 0 <= i < |inodes| => if inodes[i].used != 0 then Refs(img, l, inodes[i], p) else 0)
  }

  ghost function SumTo(s: seq<int>, n: nat): int
    requires n <= |s|
  {
    if n == 0 then 0 else SumTo(s, n - 1) + s[n - 1]
  }

  lemma TotalNext(img: Image, l: Layout, inodes: seq<Inode>, i: nat, p: int, total: int)
    requires l.Holds(img) && i < |inodes| && Total(img, l, inodes, i, p) == total
    ensures Total(img, l, inodes, i + 1, p) == total + Shares(img, l, inodes, p)[i]
  {
  }

  lemma {:induction false} TotalIsSum(img: Image, l: Layout, inodes: seq<Inode>, n: nat, p: int, total: int)
    requires l.Holds(img) && n <= |inodes| && Total(img, l, inodes, n, p) == total
    ensures total == SumTo(Shares(img, l, inodes, p), n)
    decreases n
  {
    if n > 0 {
      var rest := Total(img, l, inodes, n - 1, p);
      TotalIsSum(img, l, inodes, n - 1, p, rest);
      TotalNext(img, l, inodes, n - 1, p, rest);
    }
  }

  lemma {:induction false} SumExchange(s: seq<int>, s': seq<int>, k: nat, n: nat)
    requires k < |s| == |s'| && n <= |s| && forall i | 0 <= i < n && i != k :: s'[i] == s[i]
    ensures SumTo(s', n) == SumTo(s, n) + if k >= n then 0 else s'[k] - s[k]
    decreases n
  {
    if n > 0 {
      SumExchange(s, s', k, n - 1);
    }
  }

  /** Replacing one inode moves the account of each block by the difference of what the two versions reference. */
  lemma TotalReplace(img: Image, img': Image, l: Layout, inodes: seq<Inode>, bits: seq<int>, ino: nat, n': Inode,
                     n: nat, p: int)
    requires Core(img, l, inodes, bits) && l.Holds(img') && Spared(img, img', l, bits)
    requires ino < INODES && n'.used != 0 && n <= INODES
    ensures Total(img', l, inodes[ino := n'], n, p) == Total(img, l, inodes, n, p) + if ino >= n then 0 else
              Refs(img', l, n', p) - (if inodes[ino].used != 0 then Refs(img, l, inodes[ino], p) else 0)
  {
    var s, s' := Shares(img, l, inodes, p), Shares(img', l, inodes[ino := n'], p);
    forall i | 0 <= i < n && i != ino ensures s'[i] == s[i] {
      if inodes[i].used != 0 {
        SparedRefs(img, img', l, inodes, bits, i, p);
      }
    }
    SumExchange(s, s', ino, n);
    TotalIsSum(img, l, inodes, n, p, Total(img, l, inodes, n, p));
    TotalIsSum(img', l, inodes[ino := n'], n, p, Total(img', l, inodes[ino := n'], n, p));
  }

  // ---------------------------------------------------------------- replacing one inode

  /** The inodes agree in everything that directories and the inode rules look at, size aside. */
  ghost predicate SameNode(a: Inode, b: Inode) {
    a.used == b.used && a.typ == b.typ && a.parent == b.parent
  }

  /** The image and the inode table after `n` has been stored as inode `ino`. */
  ghost predicate Stored(img: Image, img': Image, l: Layout, inodes: seq<Inode>, ino: nat, n: Inode)
    requires l.Holds(img) && |inodes| == INODES && ino < INODES && n.Packable()
  {
    LayoutFits(l);
    img' == img[l.InodeLba(ino) := EncodeInode(n)]
  }

  lemma StoredTable(img: Image, img': Image, l: Layout, inodes: seq<Inode>, ino: nat, n: Inode)
    requires l.Holds(img) && inodes == InodeTable(img, l) && ino < INODES && n.Packable()
    requires Stored(img, img', l, inodes, ino, n)
    ensures l.Holds(img') && InodeTable(img', l) == inodes[ino := n]
    ensures SameData(img, img', l) && img'[l.start] == img[l.start]
  {
    LayoutFits(l);
    DecodeEncode(n);
    forall i | 0 <= i < INODES ensures InodeTable(img', l)[i] == inodes[ino := n][i] {
      assert i != ino ==> l.InodeLba(i) != l.InodeLba(ino);
    }
  }

  lemma MetadataTable(img: Image, img': Image, l: Layout)
    requires l.Holds(img) && l.Holds(img') && SameMetadata(img, img', l)
    ensures InodeTable(img', l) == InodeTable(img, l) && img'[l.start] == img[l.start]
    ensures Bits(img', l) == Bits(img, l)
  {
    LayoutFits(l);
    assert InodeTable(img', l) == InodeTable(img, l);
    forall b | 0 <= b < l.Blocks() ensures Bits(img', l)[b] == Bits(img, l)[b] {
      assert l.BitmapLba() <= l.BitmapLba() + b / 512 < l.DataLba();
    }
  }

  lemma InodesOkReplace(l: Layout, inodes: seq<Inode>, ino: nat, n: Inode)
    requires |inodes| == INODES && InodesOk(l, inodes) && ino < INODES && n.used == 1
    requires n.size <= l.Blocks() * 512
    requires SameNode(inodes[ino], n) || (inodes[ino].used == 0 && (n.typ == DIR || n.typ == FILE)
               && 0 <= n.parent < INODES && IsDir(inodes[n.parent]))
    ensures InodesOk(l, inodes[ino := n])
  {
    var inodes' := inodes[ino := n];
    forall i | 0 <= i < INODES ensures InodeOk(l, inodes', i) {
      assert InodeOk(l, inodes, i) && InodeOk(l, inodes, ino);
    }
  }

  /** The new version of inode `ino` references exactly the blocks A that were taken for it; the blocks that only the
      old version referenced have been given back. */
  ghost predicate Exchanged(img: Image, img1: Image, l: Layout, inodes: seq<Inode>, bits: seq<int>, ino: nat, n: Inode,
                            A: seq<int>, bits2: seq<int>)
    requires l.Holds(img) && l.Holds(img1) && |inodes| == INODES && ino < INODES && |bits| == |bits2| == l.Blocks()
  {
    && (forall p {:trigger Refs(img1, l, n, p)} | p != 0 :: Refs(img1, l, n, p) == Occ(A, p))
    && (forall p {:trigger bits2[p - 1]} | 1 <= p <= l.Blocks() :: bits2[p - 1] == bits[p - 1] + Occ(A, p)
                                - (if inodes[ino].used != 0 then Refs(img, l, inodes[ino], p) else 0))
  }

  lemma ExchangedRefs(img: Image, img1: Image, img2: Image, l: Layout, n: Inode, p: int)
    requires SameData(img1, img2, l) && n.Packable()
    ensures Refs(img2, l, n, p) == Refs(img1, l, n, p)
  {
    SameDataFrame(img1, img2, l, n);
    RefsFrame(img1, img2, l, n, p);
  }

  lemma AccountedBit(img: Image, l: Layout, inodes: seq<Inode>, bits: seq<int>, p: int)
    requires l.Holds(img) && |inodes| == INODES && |bits| == l.Blocks() && Accounted(img, l, inodes, bits)
    requires 1 <= p <= l.Blocks()
    ensures bits[p - 1] == Total(img, l, inodes, INODES, p) <= 1
  {
    assert bits[p - 1] == Total(img, l, inodes, |inodes|, p - 1 + 1) <= 1;
  }

  lemma ExchangedBit(img: Image, img1: Image, l: Layout, inodes: seq<Inode>, bits: seq<int>, bits1: seq<int>, ino: nat,
                     n: Inode, A: seq<int>, bits2: seq<int>, p: int)
    requires Grown(l, img, bits, img1, bits1, A) && |inodes| == INODES && ino < INODES && |bits2| == l.Blocks()
    requires Exchanged(img, img1, l, inodes, bits, ino, n, A, bits2) && 1 <= p <= l.Blocks()
    ensures bits2[p - 1] == bits[p - 1] + Refs(img1, l, n, p)
                            - (if inodes[ino].used != 0 then Refs(img, l, inodes[ino], p) else 0)
    ensures bits2[p - 1] <= bits[p - 1] + Refs(img1, l, n, p) <= 1
  {
    assert Refs(img1, l, n, p) == Occ(A, p);
  }

  lemma ExchangedTotal(img: Image, img1: Image, img2: Image, l: Layout, inodes: seq<Inode>, bits: seq<int>,
                       bits1: seq<int>, ino: nat, n: Inode, A: seq<int>, bits2: seq<int>, p: int)
    requires Core(img, l, inodes, bits) && Grown(l, img, bits, img1, bits1, A) && ino < INODES
    requires SameData(img1, img2, l) && n.Packable() && n.used == 1 && |bits2| == l.Blocks()
    requires Exchanged(img, img1, l, inodes, bits, ino, n, A, bits2) && 1 <= p <= l.Blocks()
    ensures bits2[p - 1] == Total(img2, l, inodes[ino := n], INODES, p) <= 1
  {
    SparedTwice(img, img1, img2, l, bits);
    TotalReplace(img, img2, l, inodes, bits, ino, n, INODES, p);
    ExchangedRefs(img, img1, img2, l, n, p);
    ExchangedBit(img, img1, l, inodes, bits, bits1, ino, n, A, bits2, p);
    AccountedBit(img, l, inodes, bits, p);
  }

  lemma AccountedByPointer(img: Image, l: Layout, inodes: seq<Inode>, bits: seq<int>)
    requires l.Holds(img) && |inodes| == INODES && |bits| == l.Blocks()
    requires forall p | 1 <= p <= l.Blocks() :: bits[p - 1] == Total(img, l, inodes, INODES, p) <= 1
    ensures Accounted(img, l, inodes, bits)
  {
    forall b | 0 <= b < |bits| ensures bits[b] == Total(img, l, inodes, |inodes|, b + 1) <= 1 {
      assert bits[b + 1 - 1] == Total(img, l, inodes, INODES, b + 1);
    }
  }

  lemma ExchangedAccounted(img: Image, img1: Image, img2: Image, l: Layout, inodes: seq<Inode>, bits: seq<int>,
                           bits1: seq<int>, ino: nat, n: Inode, A: seq<int>, bits2: seq<int>)
    requires Core(img, l, inodes, bits) && Grown(l, img, bits, img1, bits1, A) && ino < INODES
    requires SameData(img1, img2, l) && n.Packable() && n.used == 1 && |bits2| == l.Blocks()
    requires Exchanged(img, img1, l, inodes, bits, ino, n, A, bits2)
    ensures Accounted(img2, l, inodes[ino := n], bits2)
  {
    var inodes' := inodes[ino := n];
    forall p | 1 <= p <= l.Blocks()
      ensures bits2[p - 1] == Total(img2, l, inodes', INODES, p) <= 1
    {
      ExchangedTotal(img, img1, img2, l, inodes, bits, bits1, ino, n, A, bits2, p);
    }
    AccountedByPointer(img2, l, inodes', bits2);
  }

  lemma SparedTwice(img: Image, img1: Image, img2: Image, l: Layout, bits: seq<int>)
    requires l.Holds(img) && l.Holds(img1) && |bits| == l.Blocks() && Spared(img, img1, l, bits)
    requires SameData(img1, img2, l)
    ensures Spared(img, img2, l, bits)
  {
    LayoutFits(l);
  }

  lemma ExchangedInRange(img: Image, img1: Image, img2: Image, l: Layout, inodes: seq<Inode>, bits: seq<int>,
                         bits1: seq<int>, ino: nat, n: Inode, A: seq<int>, bits2: seq<int>)
    requires Core(img, l, inodes, bits) && Grown(l, img, bits, img1, bits1, A) && ino < INODES
    requires SameData(img1, img2, l) && n.Packable() && n.used == 1 && |bits2| == l.Blocks()
    requires Exchanged(img, img1, l, inodes, bits, ino, n, A, bits2)
    ensures RefsInRange(img2, l, inodes[ino := n])
  {
    SparedTwice(img, img1, img2, l, bits);
    var inodes' := inodes[ino := n];
    forall i, p | 0 <= i < INODES && inodes'[i].used != 0 && Refs(img2, l, inodes'[i], p) > 0
      ensures p <= l.Blocks()
    {
      if i == ino {
        ExchangedRefs(img, img1, img2, l, n, p);
        assert p != 0 ==> Occ(A, p) > 0;
      } else {
        SparedAgree(img, img2, l, inodes, bits, i);
        RefsFrame(img, img2, l, inodes[i], p);
        assert InRange(img, l, inodes[i]);
      }
    }
  }

  /** Replacing one inode by a version that references freshly taken blocks keeps every rule about inodes and blocks. */
  lemma ReplaceKeepsCore(img: Image, img1: Image, img2: Image, l: Layout, inodes: seq<Inode>, bits: seq<int>,
                         bits1: seq<int>, ino: nat, n: Inode, A: seq<int>, bits2: seq<int>)
    requires Core(img, l, inodes, bits) && Grown(l, img, bits, img1, bits1, A) && ino < INODES
    requires n.Packable() && n.used == 1 && n.size <= l.Blocks() * 512 && |bits2| == l.Blocks()
    requires SameNode(inodes[ino], n) || (inodes[ino].used == 0 && (n.typ == DIR || n.typ == FILE)
               && 0 <= n.parent < INODES && IsDir(inodes[n.parent]))
    requires Exchanged(img, img1, l, inodes, bits, ino, n, A, bits2)
    requires Stored(img1, img2, l, inodes, ino, n)
    ensures Core(img2, l, inodes[ino := n], bits2) && Spared(img, img2, l, bits)
  {
    MetadataTable(img, img1, l);
    StoredTable(img1, img2, l, inodes, ino, n);
    InodesOkReplace(l, inodes, ino, n);
    ExchangedInRange(img, img1, img2, l, inodes, bits, bits1, ino, n, A, bits2);
    SparedTwice(img, img1, img2, l, bits);
    ExchangedAccounted(img, img1, img2, l, inodes, bits, bits1, ino, n, A, bits2);
  }
}

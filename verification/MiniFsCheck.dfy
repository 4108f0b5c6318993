/** The image checker and repairer: an object over an image that loads the metadata, counts block references, walks
    the directories and, on request, repairs. */
module MiniFsCheck {
  import opened Common
  import opened MiniFs
  import opened MiniFsTree
  import opened MiniFsSpec
  import opened MiniFsRepair

  lemma {:induction false} CountNone(t: seq<int>, n: nat, p: int)
    requires n <= |t| && forall k | 0 <= k < n :: t[k] != p
    ensures Count(t, n, p) == 0
  {
    if n > 0 {
      CountNone(t, n - 1, p);
    }
  }

  lemma OccNone(t: seq<int>, p: int)
    requires forall k | 0 <= k < |t| :: t[k] != p
    ensures Occ(t, p) == 0
  {
    CountNone(t, |t|, p);
  }

  // ---------------------------------------------------------------- logical blocks

  /** The inner tables behind the first n entries of a double-indirect table, one after the other. */
  ghost function InnerTables(img: Image, l: Layout, outer: seq<int>, n: nat): (t: seq<int>)
    requires l.Holds(img) && n <= |outer|
    ensures |t| == 256 * n
  {
    if n == 0 then [] else InnerTables(img, l, outer, n - 1) + TableAt(img, l, outer[n - 1])
  }

  ghost function DoubleLogical(img: Image, l: Layout, p: int): seq<int>
    requires l.Holds(img)
  {
    if p == 0 then [] else InnerTables(img, l, TableAt(img, l, p), |TableAt(img, l, p)|)
  }

  /** The raw pointers of an inode by logical block number. */
  ghost function Logical(img: Image, l: Layout, n: Inode): seq<int>
    requires l.Holds(img)
  {
    n.blocks + TableAt(img, l, n.ind) + DoubleLogical(img, l, n.dbl)
  }

  lemma {:induction false} InnerTablesAt(img: Image, l: Layout, outer: seq<int>, n: nat, i: nat, j: nat)
    requires l.Holds(img) && i < n <= |outer| && j < 256
    ensures InnerTables(img, l, outer, n)[256 * i + j] == TableAt(img, l, outer[i])[j]
  {
    if i < n - 1 {
      InnerTablesAt(img, l, outer, n - 1, i, j);
    }
  }

  lemma LogicalAt(img: Image, l: Layout, n: Inode, x: nat)
    requires l.Holds(img) && |n.blocks| == 8
    ensures BlockOf(img, l, n, x) == if x < |Logical(img, l, n)| then Logical(img, l, n)[x] else 0
  {
    var outer := TableAt(img, l, n.dbl);
    if x >= 264 && (x - 264) / 256 < 256 {
      InnerTablesAt(img, l, outer, |outer|, (x - 264) / 256, (x - 264) % 256);
    }
  }

  // ---------------------------------------------------------------- references in the order they are noted

  /** The pointer to a table followed by the pointers in it. */
  ghost function SingleNotes(img: Image, l: Layout, p: int): (t: seq<int>)
    requires l.Holds(img)
    ensures |t| == 257
  {
    [p] + TableAt(img, l, p)
  }

  /** The same for each of the first n entries of a double-indirect table. */
  ghost function DoubleNotes(img: Image, l: Layout, outer: seq<int>, n: nat): (t: seq<int>)
    requires l.Holds(img) && n <= |outer|
    ensures |t| == 257 * n
  {
    if n == 0 then [] else DoubleNotes(img, l, outer, n - 1) + SingleNotes(img, l, outer[n - 1])
  }

  /** Every raw pointer of an inode, in the order the scan meets them; zeros stand for absent ones. */
  ghost function Notes(img: Image, l: Layout, n: Inode): seq<int>
    requires l.Holds(img)
  {
    n.blocks + SingleNotes(img, l, n.ind) +
    ([n.dbl] + DoubleNotes(img, l, TableAt(img, l, n.dbl), |TableAt(img, l, n.dbl)|))
  }

  lemma {:induction false} CountAppend(s: seq<int>, t: seq<int>, n: nat, p: int)
    requires n <= |t|
    ensures Count(s + t, |s| + n, p) == Occ(s, p) + Count(t, n, p)
  {
    if n > 0 {
      CountAppend(s, t, n - 1, p);
    } else {
      CountPrefix(s, t, |s|, p);
    }
  }

  lemma {:induction false} CountPrefix(s: seq<int>, t: seq<int>, n: nat, p: int)
    requires n <= |s|
    ensures Count(s + t, n, p) == Count(s, n, p)
  {
    if n > 0 {
      CountPrefix(s, t, n - 1, p);
    }
  }

  lemma OccAppend(s: seq<int>, t: seq<int>, p: int)
    ensures Occ(s + t, p) == Occ(s, p) + Occ(t, p)
  {
    CountAppend(s, t, |t|, p);
  }

  lemma OccOne(x: int, p: int)
    ensures Occ([x], p) == if x == p then 1 else 0
  {
    assert Count([x], 0, p) == 0;
  }

  lemma SingleNotesCount(img: Image, l: Layout, q: int, p: int)
    requires l.Holds(img)
    ensures Occ(SingleNotes(img, l, q), p) == (if q == p then 1 else 0) + Occ(TableAt(img, l, q), p)
  {
    OccAppend([q], TableAt(img, l, q), p);
    OccOne(q, p);
  }

  lemma {:induction false} DoubleNotesCount(img: Image, l: Layout, outer: seq<int>, n: nat, p: int)
    requires l.Holds(img) && n <= |outer|
    ensures Occ(DoubleNotes(img, l, outer, n), p) == Count(outer, n, p) + InnerRefs(img, l, outer, n, p)
    decreases n
  {
    if n > 0 {
      var notes, more := DoubleNotes(img, l, outer, n - 1), SingleNotes(img, l, outer[n - 1]);
      DoubleNotesCount(img, l, outer, n - 1, p);
      assert DoubleNotes(img, l, outer, n) == notes + more;
      OccAppend(notes, more, p);
      SingleNotesCount(img, l, outer[n - 1], p);
      assert Occ(DoubleNotes(img, l, outer, n), p) == Occ(notes, p) + Occ(more, p);
    }
  }

  /** The scan of an inode meets each pointer as often as the inode references it. */
  lemma NotesCount(img: Image, l: Layout, n: Inode, p: int)
    requires l.Holds(img)
    ensures Occ(Notes(img, l, n), p) == Refs(img, l, n, p)
  {
    var outer := TableAt(img, l, n.dbl);
    var single, double := SingleNotes(img, l, n.ind), DoubleNotes(img, l, outer, |outer|);
    SingleNotesCount(img, l, n.ind, p);
    DoubleNotesCount(img, l, outer, |outer|, p);
    OccOne(n.dbl, p);
    OccAppend(n.blocks, single, p);
    OccAppend([n.dbl], double, p);
    OccAppend(n.blocks + single, [n.dbl] + double, p);
  }

  // ---------------------------------------------------------------- pointers in range

  ghost predicate AtMost(t: seq<int>, bound: int) {
    forall k | 0 <= k < |t| :: t[k] <= bound
  }

  ghost predicate InnerAtMost(img: Image, l: Layout, outer: seq<int>, n: nat)
    requires l.Holds(img) && n <= |outer|
  {
    n == 0 || (InnerAtMost(img, l, outer, n - 1) && AtMost(TableAt(img, l, outer[n - 1]), l.Blocks()))
  }

  lemma {:induction false} InnerAtMostPrefix(img: Image, l: Layout, outer: seq<int>, m: nat, n: nat)
    requires l.Holds(img) && m <= n <= |outer| && !InnerAtMost(img, l, outer, m)
    ensures !InnerAtMost(img, l, outer, n)
    decreases n
  {
    if m < n {
      InnerAtMostPrefix(img, l, outer, m, n - 1);
    }
  }

  lemma {:induction false} ZeroInnerAtMost(img: Image, l: Layout, n: nat)
    requires l.Holds(img) && n <= |ZeroTable()|
    ensures InnerAtMost(img, l, ZeroTable(), n)
    decreases n
  {
    if n > 0 {
      ZeroInnerAtMost(img, l, n - 1);
    }
  }

  lemma {:induction false} InnerRefsNone(img: Image, l: Layout, outer: seq<int>, n: nat, p: int)
    requires l.Holds(img) && n <= |outer| && InnerAtMost(img, l, outer, n) && p > l.Blocks()
    ensures InnerRefs(img, l, outer, n, p) == 0
  {
    if n > 0 {
      InnerRefsNone(img, l, outer, n - 1, p);
      OccNone(TableAt(img, l, outer[n - 1]), p);
    }
  }

  /** The pointers of an inode are all in range, read off table by table. */
  ghost predicate PointersOk(img: Image, l: Layout, n: Inode)
    requires l.Holds(img)
  {
    && AtMost(n.blocks, l.Blocks()) && n.ind <= l.Blocks() && n.dbl <= l.Blocks()
    && AtMost(TableAt(img, l, n.ind), l.Blocks()) && AtMost(TableAt(img, l, n.dbl), l.Blocks())
    && InnerAtMost(img, l, TableAt(img, l, n.dbl), |TableAt(img, l, n.dbl)|)
  }

  lemma PointersInRange(img: Image, l: Layout, n: Inode)
    requires l.Holds(img) && PointersOk(img, l, n)
    ensures InRange(img, l, n)
  {
    forall p | p > l.Blocks()
      ensures Refs(img, l, n, p) == 0
    {
      OccNone(n.blocks, p);
      OccNone(TableAt(img, l, n.ind), p);
      OccNone(TableAt(img, l, n.dbl), p);
      InnerRefsNone(img, l, TableAt(img, l, n.dbl), |TableAt(img, l, n.dbl)|, p);
    }
  }

  lemma {:induction false} InRangeInner(img: Image, l: Layout, n: Inode, k: nat)
    requires l.Holds(img) && InRange(img, l, n) && k <= |TableAt(img, l, n.dbl)|
    ensures InnerAtMost(img, l, TableAt(img, l, n.dbl), k)
    decreases k
  {
    if k > 0 {
      InRangeInner(img, l, n, k - 1);
      var outer := TableAt(img, l, n.dbl);
      var t := TableAt(img, l, outer[k - 1]);
      forall j | 0 <= j < |t| ensures t[j] <= l.Blocks() {
        InnerRefsHas(img, l, outer, |outer|, k - 1, j);
        assert Refs(img, l, n, t[j]) > 0;
      }
    }
  }

  lemma InRangePointers(img: Image, l: Layout, n: Inode)
    requires l.Holds(img) && InRange(img, l, n)
    ensures PointersOk(img, l, n)
  {
    assert Refs(img, l, n, n.ind) > 0 && Refs(img, l, n, n.dbl) > 0;
    var single, outer := TableAt(img, l, n.ind), TableAt(img, l, n.dbl);
    forall k | 0 <= k < |n.blocks| ensures n.blocks[k] <= l.Blocks() {
      OccHas(n.blocks, k);
      assert Refs(img, l, n, n.blocks[k]) > 0;
    }
    forall k | 0 <= k < |single| ensures single[k] <= l.Blocks() {
      SingleReferenced(img, l, n, k);
      assert Refs(img, l, n, single[k]) > 0;
    }
    forall k | 0 <= k < |outer| ensures outer[k] <= l.Blocks() {
      OccHas(outer, k);
      assert Refs(img, l, n, outer[k]) > 0;
    }
    InRangeInner(img, l, n, |outer|);
  }

  // ---------------------------------------------------------------- absent tables

  lemma {:induction false} ZeroDoubleNotes(img: Image, l: Layout, n: nat)
    requires l.Holds(img) && n <= |ZeroTable()|
    ensures forall k | 0 <= k < 257 * n :: DoubleNotes(img, l, ZeroTable(), n)[k] == 0
    decreases n
  {
    if n > 0 {
      ZeroDoubleNotes(img, l, n - 1);
    }
  }

  // ---------------------------------------------------------------- scanning an inode

  /** A pointer that is present must lie in the data area. */
  method NoteBlockRef(l: Layout, p: int) returns (ok: bool)
    requires p >= 0 && l.Blocks() >= 0
    ensures ok <==> p <= l.Blocks()
  {
    return p == 0 || 0 <= p - 1 < l.Blocks();
  }

  /** One pass over a table of pointers. */
  method NoteTable(l: Layout, t: seq<int>, noteRefs: bool) returns (ok: bool)
    requires l.Blocks() >= 0 && forall k | 0 <= k < |t| :: t[k] >= 0
    ensures ok <==> (noteRefs ==> AtMost(t, l.Blocks()))
  {
    for i := 0 to |t|
      invariant noteRefs ==> forall k | 0 <= k < i :: t[k] <= l.Blocks()
    {
      if noteRefs {
        ok := NoteBlockRef(l, t[i]);
        if !ok {
          return;
        }
      }
    }
    return true;
  }

  /** The table behind pointer p, if there is one. */
  method NoteIndirect(img: Image, l: Layout, p: int, noteRefs: bool) returns (ok: bool, found: seq<int>)
    requires l.Holds(img) && p >= 0
    ensures ok <==> p <= l.Blocks() && (noteRefs ==> AtMost(TableAt(img, l, p), l.Blocks()))
    ensures ok ==> found == TableAt(img, l, p)
  {
    if p == 0 {
      return true, ZeroTable();
    }
    found := [];
    ok := NoteBlockRef(l, p);
    if !ok {
      return;
    }
    LayoutFits(l);
    found := Table(img[l.PtrLba(p)]);
    forall k | 0 <= k < |found| ensures found[k] >= 0 {
      TableEntry(img[l.PtrLba(p)], k);
    }
    ok := NoteTable(l, found, noteRefs);
  }

  /** The inner tables behind the entries of a double-indirect table. */
  method NoteInner(img: Image, l: Layout, outer: seq<int>, noteRefs: bool)
    returns (ok: bool, notes: seq<int>, found: seq<int>)
    requires l.Holds(img) && forall k | 0 <= k < |outer| :: outer[k] >= 0
    ensures ok <==> AtMost(outer, l.Blocks()) && (noteRefs ==> InnerAtMost(img, l, outer, |outer|))
    ensures ok ==> notes == DoubleNotes(img, l, outer, |outer|) && found == InnerTables(img, l, outer, |outer|)
  {
    notes, found := [], [];
    for i := 0 to |outer|
      invariant forall k | 0 <= k < i :: outer[k] <= l.Blocks()
      invariant noteRefs ==> InnerAtMost(img, l, outer, i)
      invariant notes == DoubleNotes(img, l, outer, i) && found == InnerTables(img, l, outer, i)
    {
      var t;
      ok, t := NoteIndirect(img, l, outer[i], noteRefs);
      if !ok {
        if noteRefs && AtMost(outer, l.Blocks()) {
          InnerAtMostPrefix(img, l, outer, i + 1, |outer|);
        }
        return;
      }
      notes, found := notes + ([outer[i]] + t), found + t;
    }
    ok := true;
  }

  /** The double-indirect table behind pointer p, if there is one, and everything it leads to. */
  method NoteDouble(img: Image, l: Layout, p: int, noteRefs: bool)
    returns (ok: bool, notes: seq<int>, found: seq<int>)
    requires l.Holds(img) && p >= 0
    ensures ok <==> p <= l.Blocks() && AtMost(TableAt(img, l, p), l.Blocks())
                    && (noteRefs ==> InnerAtMost(img, l, TableAt(img, l, p), |TableAt(img, l, p)|))
    ensures ok ==> notes == [p] + DoubleNotes(img, l, TableAt(img, l, p), |TableAt(img, l, p)|)
    ensures ok ==> found == DoubleLogical(img, l, p)
  {
    if p == 0 {
      ZeroDoubleNotes(img, l, |ZeroTable()|);
      ZeroInnerAtMost(img, l, |ZeroTable()|);
      notes := [p] + seq(257 * 256, k => 0);
      assert notes == [p] + DoubleNotes(img, l, ZeroTable(), |ZeroTable()|);
      return true, notes, [];
    }
    ok := NoteBlockRef(l, p);
    notes, found := [], [];
    if !ok {
      return;
    }
    LayoutFits(l);
    var outer := Table(img[l.PtrLba(p)]);
    forall k | 0 <= k < |outer| ensures outer[k] >= 0 {
      TableEntry(img[l.PtrLba(p)], k);
    }
    ok, notes, found := NoteInner(img, l, outer, noteRefs);
    notes := [p] + notes;
  }

  /** The pointers of an inode, in the order the scan meets them, and its raw pointers by logical block, 0 where it has
      no block.  With noteRefs every pointer must lie in the data area; without it only the tables must. */
  method InodeBlocks(img: Image, l: Layout, n: Inode, noteRefs: bool)
    returns (ok: bool, notes: seq<int>, found: seq<int>)
    requires l.Holds(img) && n.Packable()
    ensures ok <==> if noteRefs then PointersOk(img, l, n) else TablesOk(img, l, n)
    ensures ok ==> notes == Notes(img, l, n) && found == Logical(img, l, n)
  {
    notes, found := [], n.blocks;
    ok := NoteTable(l, n.blocks, noteRefs);
    if !ok {
      return;
    }
    var single, notes2, found2;
    ok, single := NoteIndirect(img, l, n.ind, noteRefs);
    if !ok {
      return;
    }
    ok, notes2, found2 := NoteDouble(img, l, n.dbl, noteRefs);
    notes, found := n.blocks + ([n.ind] + single) + notes2, n.blocks + single + found2;
  }

  // ---------------------------------------------------------------- reading files and directories

  lemma {:induction false} GatherFails(img: Image, l: Layout, inode: Inode, m: nat, n: nat)
    requires l.Holds(img) && |inode.blocks| == 8 && m <= n && Gather(img, l, inode, m).None?
    ensures Gather(img, l, inode, n).None?
    decreases n
  {
    if m < n {
      GatherFails(img, l, inode, m, n - 1);
    }
  }

  /** The bytes of a file or directory. */
  method ReadFileBytes(img: Image, l: Layout, n: Inode) returns (ok: bool, bytes: seq<byte>)
    requires l.Holds(img) && n.Packable()
    ensures ok <==> ReadFile(img, l, n).Some?
    ensures ok ==> bytes == ReadFile(img, l, n).value
  {
    var notes, raws;
    bytes := [];
    ok, notes, raws := InodeBlocks(img, l, n, false);
    if !ok {
      return;
    }
    LayoutFits(l);
    var needed := Ceil(n.size);
    for logical := 0 to needed
      invariant Gather(img, l, n, logical) == Some(bytes)
    {
      LogicalAt(img, l, n, logical);
      if logical >= |raws| || raws[logical] == 0 || raws[logical] - 1 >= l.Blocks() || raws[logical] < 0 {
        GatherFails(img, l, n, logical + 1, needed);
        return false, bytes;
      }
      bytes := bytes + img[l.PtrLba(raws[logical])];
    }
    return true, bytes[..n.size];
  }

  lemma {:induction false} EntriesFail(inodes: seq<Inode>, dir: int, data: seq<byte>, m: nat, n: nat)
    requires |inodes| == INODES && m <= n && 32 * n <= |data| && Entries(inodes, dir, data, m).None?
    ensures Entries(inodes, dir, data, n).None?
    decreases n
  {
    if m < n {
      EntriesFail(inodes, dir, data, m, n - 1);
    }
  }

  /** The entries of a directory, or failure on the first record that is not acceptable. */
  method ReadDirEntries(img: Image, l: Layout, inodes: seq<Inode>, dir: nat) returns (ok: bool, entries: seq<Entry>)
    requires l.Holds(img) && |inodes| == INODES && dir < INODES && inodes[dir].Packable()
    ensures ok <==> DirEntries(img, l, inodes, dir).Some?
    ensures ok ==> entries == DirEntries(img, l, inodes, dir).value
  {
    entries := [];
    if inodes[dir].size % 32 != 0 {
      return false, entries;
    }
    var data;
    ok, data := ReadFileBytes(img, l, inodes[dir]);
    if !ok {
      return;
    }
    var seen: set<seq<byte>> := {};
    for k := 0 to inodes[dir].size / 32
      invariant Entries(inodes, dir, data, k) == Some(entries)
      invariant forall name :: name in seen <==> !Fresh(name, entries)
    {
      var rec := Record(data, k);
      var ino := U16(rec, 0);
      if ino != 0 {
        var name := CName(rec[3..27]);
        if ino >= INODES || inodes[ino].used == 0 || rec[2] != inodes[ino].typ || 0 !in rec[3..27]
           || !ValidName(name) || name in seen || inodes[ino].parent != dir
        {
          EntriesFail(inodes, dir, data, k + 1, inodes[dir].size / 32);
          return false, entries;
        }
        FreshSnoc(entries, EntryOf(rec));
        seen := seen + {name};
        entries := entries + [EntryOf(rec)];
      }
    }
    ok := true;
  }

  lemma FreshSnoc(es: seq<Entry>, e: Entry)
    ensures forall name :: Fresh(name, es + [e]) <==> Fresh(name, es) && name != e.name
  {
    assert (es + [e])[|es|] == e;
    assert forall k | 0 <= k < |es| :: (es + [e])[k] == es[k];
  }

  // ---------------------------------------------------------------- block accounting

  /** The pointers of one inode, once per reference. */
  method InodeRefs(img: Image, l: Layout, n: Inode) returns (ok: bool, notes: seq<int>)
    requires l.Holds(img) && n.Packable()
    ensures ok <==> InRange(img, l, n)
    ensures ok ==> notes == Notes(img, l, n)
  {
    var found;
    ok, notes, found := InodeBlocks(img, l, n, true);
    if ok {
      PointersInRange(img, l, n);
    } else if InRange(img, l, n) {
      InRangePointers(img, l, n);
    }
  }

  ghost predicate InRangeTo(img: Image, l: Layout, inodes: seq<Inode>, n: nat)
    requires l.Holds(img) && n <= |inodes|
  {
    n == 0 || (InRangeTo(img, l, inodes, n - 1) && (inodes[n - 1].used != 0 ==> InRange(img, l, inodes[n - 1])))
  }

  lemma {:induction false} InRangeToFails(img: Image, l: Layout, inodes: seq<Inode>, n: nat, i: nat)
    requires l.Holds(img) && i < n <= |inodes| && inodes[i].used != 0 && !InRange(img, l, inodes[i])
    ensures !InRangeTo(img, l, inodes, n)
    decreases n
  {
    if i < n - 1 {
      InRangeToFails(img, l, inodes, n - 1, i);
    }
  }

  lemma {:induction false} InRangeToOnly(img: Image, l: Layout, inodes: seq<Inode>, n: nat)
    requires l.Holds(img) && n <= |inodes| && !InRangeTo(img, l, inodes, n)
    ensures exists i :: 0 <= i < n && inodes[i].used != 0 && !InRange(img, l, inodes[i])
    decreases n
  {
    if InRangeTo(img, l, inodes, n - 1) {
      assert inodes[n - 1].used != 0 && !InRange(img, l, inodes[n - 1]);
    } else {
      InRangeToOnly(img, l, inodes, n - 1);
    }
  }

  lemma InRangeToAll(img: Image, l: Layout, inodes: seq<Inode>)
    requires l.Holds(img) && |inodes| == INODES
    ensures InRangeTo(img, l, inodes, INODES) <==> RefsInRange(img, l, inodes)
  {
    if !InRangeTo(img, l, inodes, INODES) {
      InRangeToOnly(img, l, inodes, INODES);
    } else if i :| 0 <= i < INODES && inodes[i].used != 0 && !InRange(img, l, inodes[i]) {
      InRangeToFails(img, l, inodes, INODES, i);
    }
  }

  /** The pointers noted for all inodes in use, once per owner. */
  method CollectRefs(img: Image, l: Layout, inodes: seq<Inode>) returns (ok: bool, refs: seq<int>)
    requires l.Holds(img) && Packed(inodes)
    ensures ok <==> RefsInRange(img, l, inodes)
    ensures ok ==> Noted(img, l, inodes, refs, INODES)
  {
    refs := [];
    InRangeToAll(img, l, inodes);
    for i := 0 to INODES
      invariant InRangeTo(img, l, inodes, i)
      invariant Noted(img, l, inodes, refs, i)
    {
      if inodes[i].used != 0 {
        var notes;
        ok, notes := InodeRefs(img, l, inodes[i]);
        if !ok {
          InRangeToFails(img, l, inodes, INODES, i);
          return;
        }
        NotedStep(img, l, inodes, refs, i);
        refs := refs + notes;
      } else {
        NotedSkip(img, l, inodes, refs, i);
      }
    }
    ok := true;
  }

  /** Each pointer has been noted as often as the first n inodes reference it. */
  ghost predicate Noted(img: Image, l: Layout, inodes: seq<Inode>, refs: seq<int>, n: nat)
    requires l.Holds(img) && n <= |inodes|
  {
    forall p {:trigger Occ(refs, p)} :: Occ(refs, p) == Total(img, l, inodes, n, p)
  }

  lemma NotedStep(img: Image, l: Layout, inodes: seq<Inode>, refs: seq<int>, n: nat)
    requires l.Holds(img) && n < |inodes| && inodes[n].used != 0 && Noted(img, l, inodes, refs, n)
    ensures Noted(img, l, inodes, refs + Notes(img, l, inodes[n]), n + 1)
  {
    var notes := Notes(img, l, inodes[n]);
    forall p: int ensures Occ(refs + notes, p) == Total(img, l, inodes, n + 1, p) {
      OccAppend(refs, notes, p);
      NotesCount(img, l, inodes[n], p);
      assert Occ(refs, p) == Total(img, l, inodes, n, p);
    }
  }

  lemma NotedSkip(img: Image, l: Layout, inodes: seq<Inode>, refs: seq<int>, n: nat)
    requires l.Holds(img) && n < |inodes| && inodes[n].used == 0 && Noted(img, l, inodes, refs, n)
    ensures Noted(img, l, inodes, refs, n + 1)
  {
  }

  lemma AccountedAlone(img: Image, l: Layout, inodes: seq<Inode>, bits: seq<int>)
    requires l.Holds(img) && |inodes| == INODES && |bits| == l.Blocks() && Accounted(img, l, inodes, bits)
    ensures NoSharing(img, l, inodes) && forall b | 0 <= b < |bits| :: 0 <= bits[b] <= 1
  {
    forall p | 1 <= p <= l.Blocks() ensures Total(img, l, inodes, INODES, p) <= 1 {
      assert bits[p - 1] == Total(img, l, inodes, |inodes|, p - 1 + 1) <= 1;
    }
  }

  /** Does every block have at most one owner? */
  method NoDuplicates(ghost img: Image, l: Layout, ghost inodes: seq<Inode>, refs: seq<int>) returns (ok: bool)
    requires l.Holds(img) && |inodes| == INODES && Noted(img, l, inodes, refs, INODES)
    ensures ok <==> NoSharing(img, l, inodes)
  {
    for b := 0 to l.Blocks()
      invariant forall p | 1 <= p <= b :: Total(img, l, inodes, INODES, p) <= 1
    {
      if Occ(refs, b + 1) > 1 {
        return false;
      }
    }
    ok := true;
  }

  /** The bitmap the references call for. */
  method ReferencedBits(ghost img: Image, l: Layout, ghost inodes: seq<Inode>, refs: seq<int>) returns (bits: seq<int>)
    requires l.Holds(img) && |inodes| == INODES && Noted(img, l, inodes, refs, INODES)
    ensures bits == Wanted(img, l, inodes)
  {
    bits := [];
    for b := 0 to l.Blocks()
      invariant |bits| == b && forall k | 0 <= k < b :: bits[k] == WantedBit(img, l, inodes, k)
    {
      bits := bits + [if Occ(refs, b + 1) > 0 then 1 else 0];
    }
  }

  /** Is every referenced block marked and every marked block referenced? */
  method MarkedExactly(ghost img: Image, l: Layout, ghost inodes: seq<Inode>, refs: seq<int>, bits: seq<int>)
    returns (ok: bool)
    requires l.Holds(img) && |inodes| == INODES && Noted(img, l, inodes, refs, INODES) && |bits| == l.Blocks()
    requires NoSharing(img, l, inodes) && forall b | 0 <= b < |bits| :: 0 <= bits[b] <= 1
    ensures ok <==> Accounted(img, l, inodes, bits)
  {
    for b := 0 to |bits|
      invariant forall k | 0 <= k < b :: bits[k] == Total(img, l, inodes, |inodes|, k + 1) <= 1
    {
      if (Occ(refs, b + 1) > 0) != (bits[b] != 0) {
        return false;
      }
    }
    ok := true;
  }

  /** The rules for one inode do not depend on stale free inodes elsewhere. */
  lemma InodeOkFrame(l: Layout, inodes: seq<Inode>, inodes': seq<Inode>, i: nat)
    requires SameUsed(inodes, inodes') && i < INODES && inodes'[i] == inodes[i]
    ensures InodeOk(l, inodes', i) <==> InodeOk(l, inodes, i)
  {
  }

  lemma BlankOk(l: Layout, inodes: seq<Inode>, i: nat)
    requires |inodes| == INODES && i < INODES && inodes[i] == FreeInode()
    ensures InodeOk(l, inodes, i)
  {
  }

  ghost predicate InodesOkTo(l: Layout, inodes: seq<Inode>, n: nat)
    requires |inodes| == INODES && n <= INODES
  {
    n == 0 || (InodesOkTo(l, inodes, n - 1) && InodeOk(l, inodes, n - 1))
  }

  lemma {:induction false} InodesOkToAll(l: Layout, inodes: seq<Inode>, n: nat)
    requires |inodes| == INODES && n <= INODES
    ensures InodesOkTo(l, inodes, n) <==> forall i | 0 <= i < n :: InodeOk(l, inodes, i)
    decreases n
  {
    if n > 0 {
      InodesOkToAll(l, inodes, n - 1);
    }
  }

  /** The image and the inode table while the stale inodes below n have been erased. */
  ghost function ErasedTo(img: Image, l: Layout, n: nat): (r: Image)
    requires l.Holds(img) && n <= INODES
    ensures |r| == |img|
  {
    LayoutFits(l);
    if n == 0 then img
    else if Stale(DecodeInode(img[l.InodeLba(n - 1)])) then ErasedTo(img, l, n - 1)[l.InodeLba(n - 1) := ZeroSector()]
    else ErasedTo(img, l, n - 1)
  }

  ghost function FreshTo(inodes: seq<Inode>, n: nat): (r: seq<Inode>)
    requires n <= |inodes|
    ensures |r| == |inodes|
  {
    if n == 0 then inodes
    else if Stale(inodes[n - 1]) then FreshTo(inodes, n - 1)[n - 1 := FreeInode()]
    else FreshTo(inodes, n - 1)
  }

  lemma {:induction false} ErasedToIs(img: Image, l: Layout, n: nat)
    requires l.Holds(img) && n <= INODES
    ensures forall k | 0 <= k < |img| :: ErasedTo(img, l, n)[k] ==
              if l.start + 1 <= k < l.start + 1 + n && Stale(DecodeInode(img[k])) then ZeroSector() else img[k]
  {
    if n > 0 {
      ErasedToIs(img, l, n - 1);
    }
  }

  lemma {:induction false} FreshToIs(inodes: seq<Inode>, n: nat)
    requires n <= |inodes| == INODES
    ensures SameUsed(inodes, FreshTo(inodes, n)) && FreshTo(inodes, n)[n..] == inodes[n..]
    ensures n < INODES ==> FreshTo(inodes, n)[n] == inodes[n]
    ensures FreshTo(inodes, n)[..n] == Freshen(inodes)[..n]
    ensures SameUsed(FreshTo(inodes, n), Freshen(inodes))
  {
    if n > 0 {
      FreshToIs(inodes, n - 1);
    }
  }

  lemma FreshenRoot(inodes: seq<Inode>)
    requires |inodes| == INODES
    ensures RootInodeOk(Freshen(inodes)) <==> RootInodeOk(inodes)
  {
  }

  /** The bookkeeping of the sweep below: what it has done to the image and the inodes below n. */
  ghost predicate Swept(img: Image, l: Layout, was: seq<Inode>, repair: bool, n: nat, img': Image, inodes: seq<Inode>)
    requires l.Holds(img) && n <= |was| == INODES
  {
    img' == (if repair then ErasedTo(img, l, n) else img) && inodes == (if repair then FreshTo(was, n) else was)
  }

  lemma SweptAll(img: Image, l: Layout, img': Image, inodes: seq<Inode>)
    requires l.Holds(img) && Swept(img, l, InodeTable(img, l), true, INODES, img', inodes)
    ensures img' == ZeroStale(img, l) && inodes == Freshen(InodeTable(img, l))
  {
    FreshToIs(InodeTable(img, l), INODES);
    ErasedToIs(img, l, INODES);
  }

  /** The inodes a check goes by: with repair, those without stale ones. */
  ghost function Judged(was: seq<Inode>, repair: bool): (r: seq<Inode>)
    ensures |r| == |was|
  {
    if repair then Freshen(was) else was
  }

  lemma SweepErases(img: Image, l: Layout, was: seq<Inode>, n: nat, img': Image, inodes: seq<Inode>)
    requires l.Holds(img) && was == InodeTable(img, l) && n < INODES && Swept(img, l, was, true, n, img', inodes)
    requires Stale(inodes[n]) && InodesOkTo(l, Judged(was, true), n) && 0 <= l.InodeLba(n) < |img'|
    ensures Swept(img, l, was, true, n + 1, img'[l.InodeLba(n) := ZeroSector()], inodes[n := FreeInode()])
    ensures InodesOkTo(l, Judged(was, true), n + 1)
  {
    FreshToIs(was, n);
    BlankOk(l, Freshen(was), n);
  }

  lemma SweepPasses(img: Image, l: Layout, was: seq<Inode>, repair: bool, n: nat, img': Image, inodes: seq<Inode>)
    requires l.Holds(img) && was == InodeTable(img, l) && n < INODES && Swept(img, l, was, repair, n, img', inodes)
    requires InodesOkTo(l, Judged(was, repair), n) && !(repair && Stale(inodes[n]))
    ensures Swept(img, l, was, repair, n + 1, img', inodes)
    ensures InodesOkTo(l, Judged(was, repair), n + 1) <==> InodeOk(l, inodes, n)
  {
    FreshToIs(was, n);
    InodeOkFrame(l, inodes, Judged(was, repair), n);
  }

  /** One pass over the inodes after the root has been accepted. */
  method SweepInodes(img: Image, l: Layout, was: seq<Inode>, repair: bool)
    returns (ok: bool, img': Image, inodes: seq<Inode>)
    requires l.Holds(img) && was == InodeTable(img, l)
    ensures ok <==> InodesOkTo(l, if repair then Freshen(was) else was, INODES)
    ensures ok ==> img' == (if repair then ZeroStale(img, l) else img)
    ensures ok ==> inodes == (if repair then Freshen(was) else was)
    ensures !repair ==> img' == img && inodes == was
  {
    img', inodes := img, was;
    for ino := 0 to INODES
      invariant Swept(img, l, was, repair, ino, img', inodes) && InodesOkTo(l, Judged(was, repair), ino)
    {
      var stale := inodes[ino].used == 0 && !inodes[ino].Blank();
      if repair && stale {
        LayoutFits(l);
        SweepErases(img, l, was, ino, img', inodes);
        img', inodes := img'[l.InodeLba(ino) := ZeroSector()], inodes[ino := FreeInode()];
      } else {
        SweepPasses(img, l, was, repair, ino, img', inodes);
        if !InodeOk(l, inodes, ino) {
          InodesOkToPrefix(l, Judged(was, repair), ino + 1, INODES);
          return false, img', inodes;
        }
      }
    }
    if repair {
      SweptAll(img, l, img', inodes);
    }
    ok := true;
  }

  lemma {:induction false} InodesOkToPrefix(l: Layout, inodes: seq<Inode>, m: nat, n: nat)
    requires |inodes| == INODES && m <= n <= INODES && !InodesOkTo(l, inodes, m)
    ensures !InodesOkTo(l, inodes, n)
    decreases n
  {
    if m < n {
      InodesOkToPrefix(l, inodes, m, n - 1);
    }
  }

  lemma EntryTypes(img: Image, l: Layout, inodes: seq<Inode>, dir: nat, k: nat)
    requires l.Holds(img) && Packed(inodes) && dir < INODES
    requires DirEntries(img, l, inodes, dir).Some? && k < |DirEntries(img, l, inodes, dir).value|
    ensures var e := DirEntries(img, l, inodes, dir).value[k];
            && 0 < e.ino < INODES && inodes[e.ino].used != 0 && inodes[e.ino].typ == e.typ
            && inodes[e.ino].parent == dir
  {
    EntriesChecked(inodes, dir, ReadFile(img, l, inodes[dir]).value, inodes[dir].size / 32);
  }

  lemma {:induction false} WalkKidsFail(t: Tree, ino: int, m: nat, n: nat, stack: set<int>)
    requires t.Consistent() && 0 <= ino < INODES && t.kids[ino].Some? && m <= n <= |t.kids[ino].value|
    requires stack <= AllInodes() && WalkKids(t, ino, m, stack).None?
    ensures WalkKids(t, ino, n, stack).None?
    decreases n
  {
    if m < n {
      WalkKidsFail(t, ino, m, n - 1, stack);
    }
  }

  lemma ZeroStaleTotal(img: Image, l: Layout)
    requires l.Holds(img) && SameData(img, ZeroStale(img, l), l)
    ensures NoSharing(ZeroStale(img, l), l, Freshen(InodeTable(img, l))) <==> NoSharing(img, l, InodeTable(img, l))
    ensures Wanted(ZeroStale(img, l), l, Freshen(InodeTable(img, l))) == Wanted(img, l, InodeTable(img, l))
  {
    var z, inodes := ZeroStale(img, l), InodeTable(img, l);
    var inodes' := Freshen(inodes);
    forall p: int ensures Total(z, l, inodes', INODES, p) == Total(img, l, inodes, INODES, p) {
      TotalFrame(img, z, l, inodes, inodes', INODES, p);
    }
    forall b | 0 <= b < l.Blocks() ensures Wanted(z, l, inodes')[b] == Wanted(img, l, inodes)[b] {
      assert Total(z, l, inodes', INODES, b + 1) == Total(img, l, inodes, INODES, b + 1);
    }
  }

  /** Erasing stale inodes changes nothing that the block rules look at. */
  lemma AfterZeroStale(img: Image, l: Layout)
    requires l.Holds(img)
    ensures l.Holds(ZeroStale(img, l)) && InodeTable(ZeroStale(img, l), l) == Freshen(InodeTable(img, l))
    ensures Bits(ZeroStale(img, l), l) == Bits(img, l)
    ensures RefsInRange(ZeroStale(img, l), l, Freshen(InodeTable(img, l))) <==> RefsInRange(img, l, InodeTable(img, l))
    ensures NoSharing(ZeroStale(img, l), l, Freshen(InodeTable(img, l))) <==> NoSharing(img, l, InodeTable(img, l))
    ensures Wanted(ZeroStale(img, l), l, Freshen(InodeTable(img, l))) == Wanted(img, l, InodeTable(img, l))
  {
    ZeroStaleInodes(img, l);
    ZeroStaleBits(img, l);
    RefsInRangeFrame(img, ZeroStale(img, l), l, InodeTable(img, l), Freshen(InodeTable(img, l)));
    ZeroStaleTotal(img, l);
  }

  ghost predicate Reachable(img: Image, l: Layout, inodes: seq<Inode>)
    requires l.Holds(img) && Packed(inodes)
  {
    TreeConsistent(img, l, inodes);
    Reaches(TreeOf(img, l, inodes))
  }

  /** A new bitmap leaves the directory graph alone. */
  lemma ReachableFrame(img: Image, img': Image, l: Layout, inodes: seq<Inode>, bits: seq<int>)
    requires l.Holds(img) && Packed(inodes) && RootInodeOk(inodes)
    requires img' == img || img' == SetBitmap(img, l, bits)
    ensures l.Holds(img') && (Reachable(img', l, inodes) <==> Reachable(img, l, inodes))
  {
    SetBitmapParts(img, l, bits);
    ReachesFrame(img, img', l, inodes, inodes);
  }

  /** What remains of a plain check once the metadata has been loaded. */
  lemma PlainVerdict(img: Image, l: Layout)
    requires l.Holds(img)
    ensures var inodes := InodeTable(img, l);
            CheckOk(img, l) <==> SuperOk(img, l) && InodesOk(l, inodes) && RefsInRange(img, l, inodes)
                                 && Accounted(img, l, inodes, Bits(img, l)) && Reachable(img, l, inodes)
  {
  }

  lemma ReachableAfterZeroStale(img: Image, l: Layout)
    requires l.Holds(img) && RootInodeOk(InodeTable(img, l)) && SameData(img, ZeroStale(img, l), l)
    ensures var inodes := InodeTable(img, l);
            Reachable(ZeroStale(img, l), l, Freshen(inodes)) <==> Reachable(img, l, inodes)
  {
    ReachesFrame(img, ZeroStale(img, l), l, InodeTable(img, l), Freshen(InodeTable(img, l)));
  }

  lemma RepairableIs(img: Image, l: Layout)
    requires l.Holds(img)
    ensures var inodes := InodeTable(img, l);
            Repairable(img, l) <==> SuperOk(img, l) && InodesOk(l, Freshen(inodes)) && RefsInRange(img, l, inodes)
                                    && NoSharing(img, l, inodes) && Reachable(img, l, inodes)
  {
  }

  /** What a repair insists on, said about the image whose stale inodes have been erased. */
  lemma RepairVerdict(img: Image, l: Layout)
    requires l.Holds(img)
    ensures var z, inodes := ZeroStale(img, l), Freshen(InodeTable(img, l));
            && l.Holds(z) && InodeTable(z, l) == inodes && Bits(z, l) == Bits(img, l)
            && Wanted(z, l, inodes) == Wanted(img, l, InodeTable(img, l))
            && (CheckOk(Repaired(img, l), l) <==> SuperOk(img, l) && InodesOk(l, inodes) && RefsInRange(z, l, inodes)
                                                  && NoSharing(z, l, inodes) && Reachable(z, l, inodes))
  {
    RepairSound(img, l);
    RepairableIs(img, l);
    AfterZeroStale(img, l);
    ZeroStaleBits(img, l);
    FreshenRoot(InodeTable(img, l));
    if RootInodeOk(InodeTable(img, l)) {
      ReachableAfterZeroStale(img, l);
    }
  }

  class MiniFsImage {
    const l: Layout
    var image: Image
    var inodes: seq<Inode>
    var bitmap: seq<int>
    var blockRefs: seq<int>  // the raw pointers noted so far, once per owner
    var reachable: set<int>

    constructor (image: Image, l: Layout)
      ensures this.image == image && this.l == l
    {
      this.l := l;
      this.image := image;
      inodes, bitmap, blockRefs, reachable := [], [], [], {};
    }

    /** The metadata has been loaded from the current image. */
    ghost predicate Loaded()
      reads this
    {
      l.Holds(image) && Packed(inodes) && |bitmap| == l.Blocks()
    }

    method Load(allowInvalidBitmap: bool) returns (ok: bool)
      modifies this`inodes, this`bitmap
      ensures ok ==> l.Holds(image) && SuperOk(image, l)
      ensures ok ==> inodes == InodeTable(image, l) && bitmap == Bits(image, l)
      ensures l.Holds(image) && SuperOk(image, l) ==>
                (ok <==> allowInvalidBitmap || forall b | 0 <= b < l.Blocks() :: Bits(image, l)[b] <= 1)
    {
      if |image| < l.start + l.sectors || |image| <= l.start {
        return false;
      }
      var s := image[l.start];
      if U32(s, 0) != MAGIC || U32(s, 4) != INODES || U32(s, 8) != l.Blocks() || U32(s, 12) != l.DataLba() {
        return false;
      }
      LayoutFits(l);
      inodes := [];
      for ino := 0 to INODES
        invariant |inodes| == ino
        invariant forall i | 0 <= i < ino :: inodes[i] == DecodeInode(image[l.InodeLba(i)])
      {
        inodes := inodes + [DecodeInode(image[l.InodeLba(ino)])];
      }
      bitmap := Bits(image, l);
      ok := true;
      for i := 0 to |bitmap|
        invariant ok <==> allowInvalidBitmap || forall b | 0 <= b < i :: bitmap[b] <= 1
      {
        if bitmap[i] > 1 && !allowInvalidBitmap {
          ok := false;
        }
      }
    }

    /** The inode rules; with repair, stale free inodes are erased instead of rejected. */
    method CheckInodes(repair: bool) returns (ok: bool)
      requires l.Holds(image) && inodes == InodeTable(image, l)
      modifies this`image, this`inodes
      ensures !repair ==> image == old(image) && inodes == old(inodes) && (ok <==> InodesOk(l, inodes))
      ensures repair ==> (ok <==> InodesOk(l, Freshen(old(inodes))))
      ensures repair && ok ==> image == ZeroStale(old(image), l) && inodes == Freshen(old(inodes))
    {
      FreshenRoot(inodes);
      if !RootInodeOk(inodes) {
        return false;
      }
      InodesOkToAll(l, inodes, INODES);
      InodesOkToAll(l, Freshen(inodes), INODES);
      ok, image, inodes := SweepInodes(image, l, inodes, repair);
    }

    /** Install a bitmap of zeros and ones in the image. */
    method WriteBitmap()
      requires l.Holds(image) && |bitmap| == l.Blocks()
      modifies this`image
      ensures image == SetBitmap(old(image), l, bitmap)
    {
      LayoutFits(l);
      var img := image;
      for s := 0 to l.BitmapSectors()
        invariant |image| == |img|
        invariant forall k | 0 <= k < |img| ::
                    image[k] == if k < l.BitmapLba() + s then SetBitmap(img, l, bitmap)[k] else img[k]
      {
        image := image[l.BitmapLba() + s := BitmapSector(bitmap, 512 * s)];
      }
    }

    /** The block rules: pointers in range, no block with two owners, and a bitmap that agrees, which repair
        rebuilds. */
    method CheckBlocks(repair: bool) returns (ok: bool)
      requires l.Holds(image) && inodes == InodeTable(image, l) && bitmap == Bits(image, l)
      modifies this`image, this`bitmap, this`blockRefs
      ensures !repair ==> image == old(image) && bitmap == old(bitmap)
      ensures !repair ==> (ok <==> RefsInRange(image, l, inodes) && Accounted(image, l, inodes, bitmap))
      ensures repair ==> (ok <==> RefsInRange(old(image), l, inodes) && NoSharing(old(image), l, inodes))
      ensures repair && ok ==> bitmap == Wanted(old(image), l, inodes)
      ensures repair && ok ==>
                image == if old(bitmap) == bitmap then old(image) else SetBitmap(old(image), l, bitmap)
    {
      ghost var img := image;
      if Accounted(img, l, inodes, bitmap) {
        AccountedAlone(img, l, inodes, bitmap);
      }
      if !repair && exists b | 0 <= b < |bitmap| :: bitmap[b] > 1 {
        return false;
      }
      ok, blockRefs := CollectRefs(image, l, inodes);
      if !ok {
        return;
      }
      ok := NoDuplicates(img, l, inodes, blockRefs);
      if !ok {
        return;
      }
      if repair {
        var wanted := ReferencedBits(img, l, inodes, blockRefs);
        if bitmap != wanted {
          bitmap := wanted;
          WriteBitmap();
        }
      } else {
        ok := MarkedExactly(img, l, inodes, blockRefs, bitmap);
      }
    }

    /** The walk over the directories below `ino`, with the directories being walked on the stack. */
    method WalkDirs(ino: nat, stack: set<int>) returns (ok: bool)
      requires l.Holds(image) && Packed(inodes) && TreeOf(image, l, inodes).Consistent()
      requires ino < INODES && stack <= AllInodes() && IsDir(inodes[ino])
      modifies this`reachable
      ensures ok <==> Walk(TreeOf(image, l, inodes), ino, stack).Some?
      ensures ok ==> reachable == old(reachable) + Walk(TreeOf(image, l, inodes), ino, stack).value
      decreases AllInodes() - stack
    {
      ghost var t, before := TreeOf(image, l, inodes), reachable;
      if ino in stack {
        return false;
      }
      assert ino in AllInodes() - stack;
      reachable := reachable + {ino};
      var entries;
      ok, entries := ReadDirEntries(image, l, inodes, ino);
      if !ok {
        return;
      }
      assert t.kids[ino] == Some(Inos(entries));
      for k := 0 to |entries|
        invariant WalkKids(t, ino, k, stack + {ino}).Some?
        invariant reachable == before + WalkKids(t, ino, k, stack + {ino}).value
      {
        assert t.GoodKid(ino, t.kids[ino].value[k]);
        EntryTypes(image, l, inodes, ino, k);
        if entries[k].typ == DIR {
          ok := WalkDirs(entries[k].ino, stack + {ino});
          if !ok {
            WalkKidsFail(t, ino, k + 1, |entries|, stack + {ino});
            return;
          }
        } else {
          reachable := reachable + {entries[k].ino};
        }
      }
      ok := true;
    }

    /** Every inode in use must have been met on the walk from the root. */
    method CheckReachability() returns (ok: bool)
      requires l.Holds(image) && Packed(inodes) && RootInodeOk(inodes) && reachable == {}
      modifies this`reachable
      ensures ok <==> Reachable(image, l, inodes)
    {
      TreeConsistent(image, l, inodes);
      ghost var tree := TreeOf(image, l, inodes);
      ok := WalkDirs(ROOT, {});
      if !ok {
        return;
      }
      assert tree.inodes == inodes && reachable == Walk(tree, ROOT, {}).value;
      for i := 0 to INODES
        invariant forall k | 0 <= k < i && inodes[k].used != 0 :: k in reachable
      {
        if inodes[i].used != 0 && i !in reachable {
          return false;
        }
      }
    }

    /** The stages of a check after the inode rules. */
    method CheckGraph(repair: bool) returns (ok: bool)
      requires l.Holds(image) && inodes == InodeTable(image, l) && bitmap == Bits(image, l)
      requires RootInodeOk(inodes) && reachable == {}
      modifies this`image, this`bitmap, this`blockRefs, this`reachable
      ensures !repair ==> image == old(image)
      ensures !repair ==> (ok <==> RefsInRange(image, l, inodes) && Accounted(image, l, inodes, old(bitmap))
                                   && Reachable(image, l, inodes))
      ensures repair ==> (ok <==> RefsInRange(old(image), l, inodes) && NoSharing(old(image), l, inodes)
                                  && Reachable(old(image), l, inodes))
      ensures repair && ok ==> var want := Wanted(old(image), l, inodes);
                image == if old(bitmap) == want then old(image) else SetBitmap(old(image), l, want)
    {
      ok := CheckBlocks(repair);
      if !ok {
        return;
      }
      ReachableFrame(old(image), image, l, inodes, bitmap);
      ok := CheckReachability();
    }

    /** The stages of a check after the metadata has been loaded. */
    method CheckLoaded(repair: bool) returns (ok: bool)
      requires l.Holds(image) && inodes == InodeTable(image, l) && bitmap == Bits(image, l) && reachable == {}
      modifies this`image, this`inodes, this`bitmap, this`blockRefs, this`reachable
      ensures !repair ==> image == old(image)
      ensures !repair ==> (ok <==> InodesOk(l, old(inodes)) && RefsInRange(image, l, old(inodes))
                                   && Accounted(image, l, old(inodes), old(bitmap)) && Reachable(image, l, old(inodes)))
      ensures repair ==> var z, clean := ZeroStale(old(image), l), Freshen(old(inodes));
                l.Holds(z) && (ok <==> InodesOk(l, clean) && RefsInRange(z, l, clean) && NoSharing(z, l, clean)
                                       && Reachable(z, l, clean))
      ensures repair && ok ==> var z, clean := ZeroStale(old(image), l), Freshen(old(inodes));
                image == if old(bitmap) == Wanted(z, l, clean) then z else SetBitmap(z, l, Wanted(z, l, clean))
    {
      ghost var z, clean := image, inodes;
      if repair {
        AfterZeroStale(image, l);
        z, clean := ZeroStale(image, l), Freshen(inodes);
      }
      ok := CheckInodes(repair);
      if ok {
        assert image == z && inodes == clean && bitmap == Bits(z, l) && RootInodeOk(clean);
        ok := CheckGraph(repair);
      }
    }

    /** The whole check.  Without repair it changes nothing and accepts exactly the images that follow every rule.
        With repair it succeeds exactly when the repaired image passes a fresh check, and leaves that image. */
    method Check(repair: bool) returns (ok: bool)
      modifies this
      ensures !repair ==> image == old(image) && (ok <==> CheckOk(image, l))
      ensures repair ==> (ok <==> l.Holds(old(image)) && CheckOk(Repaired(old(image), l), l))
      ensures repair && ok ==> image == Repaired(old(image), l)
    {
      blockRefs, reachable := [], {};
      if l.Holds(image) {
        if repair {
          RepairVerdict(image, l);
        } else {
          PlainVerdict(image, l);
        }
      }
      ok := Load(repair);
      if ok {
        ok := CheckLoaded(repair);
      }
    }
  }
}

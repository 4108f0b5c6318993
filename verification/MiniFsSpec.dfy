/** What the image checker accepts: directories, inode rules, block accounting and reachability, as pure predicates. */
module MiniFsSpec {
  import opened Common
  import opened MiniFs
  import opened MiniFsTree

  // ---------------------------------------------------------------- UTF-8 (RFC 3629)

  predicate Cont(b: byte) {
    0x80 <= b <= 0xBF
  }

  /** Strictly well-formed UTF-8, the byte strings that decode without an error. */
  predicate ValidUtf8(s: seq<byte>) {
    if |s| == 0 then true
    else if s[0] < 0x80 then ValidUtf8(s[1..])
    else if 0xC2 <= s[0] <= 0xDF then |s| >= 2 && Cont(s[1]) && ValidUtf8(s[2..])
    else if 0xE0 <= s[0] <= 0xEF then
      && |s| >= 3 && Cont(s[1]) && Cont(s[2])
      && (s[0] == 0xE0 ==> s[1] >= 0xA0) && (s[0] == 0xED ==> s[1] <= 0x9F) && ValidUtf8(s[3..])
    else if 0xF0 <= s[0] <= 0xF4 then
      && |s| >= 4 && Cont(s[1]) && Cont(s[2]) && Cont(s[3])
      && (s[0] == 0xF0 ==> s[1] >= 0x90) && (s[0] == 0xF4 ==> s[1] <= 0x8F) && ValidUtf8(s[4..])
    else false
  }

  // ---------------------------------------------------------------- directories

  datatype Entry = Entry(name: seq<byte>, ino: int, typ: int)

  /** The bytes before the first NUL. */
  function CName(raw: seq<byte>): seq<byte> {
    if |raw| == 0 || raw[0] == 0 then [] else [raw[0]] + CName(raw[1..])
  }

  predicate ValidName(name: seq<byte>) {
    name != [] && 0x2F !in name && ValidUtf8(name)
  }

  predicate Fresh(name: seq<byte>, seen: seq<Entry>) {
    forall k | 0 <= k < |seen| :: seen[k].name != name
  }

  /** The 32 bytes of one directory record: inode number, type, 24 name bytes, padding. */
  function Record(data: seq<byte>, k: nat): seq<byte>
    requires 32 * k + 32 <= |data|
  {
    data[32 * k..32 * k + 32]
  }

  /** A record that names inode `ino` in directory `dir`, after the entries `seen`, is acceptable.
      A name of at most 23 bytes has at most 23 characters, so the length limit needs no clause of its own. */
  predicate RecordOk(inodes: seq<Inode>, dir: int, rec: seq<byte>, seen: seq<Entry>)
    requires |inodes| == INODES && |rec| == 32
  {
    && U16(rec, 0) < INODES
    && inodes[U16(rec, 0)].used != 0
    && rec[2] == inodes[U16(rec, 0)].typ
    && 0 in rec[3..27]
    && ValidName(CName(rec[3..27]))
    && Fresh(CName(rec[3..27]), seen)
    && inodes[U16(rec, 0)].parent == dir
  }

  function EntryOf(rec: seq<byte>): Entry
    requires |rec| == 32
  {
    Entry(CName(rec[3..27]), U16(rec, 0), rec[2])
  }

  /** The entries of the first n records of a directory's bytes; None stands for an FsError. */
  function Entries(inodes: seq<Inode>, dir: int, data: seq<byte>, n: nat): Option<seq<Entry>>
    requires |inodes| == INODES && 32 * n <= |data|
    decreases n
  {
    if n == 0 then Some([])
    else if Entries(inodes, dir, data, n - 1).None? then None
    else if U16(Record(data, n - 1), 0) == 0 then Entries(inodes, dir, data, n - 1)
    else if RecordOk(inodes, dir, Record(data, n - 1), Entries(inodes, dir, data, n - 1).value) then
      Some(Entries(inodes, dir, data, n - 1).value + [EntryOf(Record(data, n - 1))])
    else None
  }

  /** The entries of the directory stored in inode number `dir`. */
  function DirEntries(img: Image, l: Layout, inodes: seq<Inode>, dir: nat): Option<seq<Entry>>
    requires l.Holds(img) && |inodes| == INODES && dir < INODES && inodes[dir].Packable()
  {
    if inodes[dir].size % 32 != 0 || ReadFile(img, l, inodes[dir]).None? then None
    else Entries(inodes, dir, ReadFile(img, l, inodes[dir]).value, inodes[dir].size / 32)
  }

  function Inos(es: seq<Entry>): (s: seq<int>)
    ensures |s| == |es| && forall k | 0 <= k < |s| :: s[k] == es[k].ino
  {
    seq(|es|, k requires 0 <= k < |es| => es[k].ino)
  }

  predicate IsDir(n: Inode) {
    n.used != 0 && n.typ == DIR
  }

  function Kids(img: Image, l: Layout, inodes: seq<Inode>, i: nat): Option<seq<int>>
    requires l.Holds(img) && |inodes| == INODES && i < INODES && inodes[i].Packable()
  {
    if !IsDir(inodes[i]) || DirEntries(img, l, inodes, i).None? then None
    else Some(Inos(DirEntries(img, l, inodes, i).value))
  }

  ghost predicate Packed(inodes: seq<Inode>) {
    |inodes| == INODES && forall i | 0 <= i < INODES :: inodes[i].Packable()
  }

  ghost function TreeOf(img: Image, l: Layout, inodes: seq<Inode>): (t: Tree)
    requires l.Holds(img) && Packed(inodes)
    ensures t.inodes == inodes && |t.kids| == INODES
    ensures forall i | 0 <= i < INODES :: t.kids[i] == Kids(img, l, inodes, i)
  {
    Tree(inodes, seq(INODES, i requires 0 <= i < INODES => Kids(img, l, inodes, i)))
  }

  /** Parsing has checked every entry it returns against the inode the entry names. */
  lemma {:induction false} EntriesChecked(inodes: seq<Inode>, dir: int, data: seq<byte>, n: nat)
    requires |inodes| == INODES && 32 * n <= |data|
    requires Entries(inodes, dir, data, n).Some?
    ensures forall k | 0 <= k < |Entries(inodes, dir, data, n).value| ::
              var e := Entries(inodes, dir, data, n).value[k];
              && 0 < e.ino < INODES && inodes[e.ino].used != 0 && inodes[e.ino].typ == e.typ
              && inodes[e.ino].parent == dir && ValidName(e.name)
  {
    if n > 0 {
      EntriesChecked(inodes, dir, data, n - 1);
    }
  }

  /** Does record k name anything? */
  predicate Taken(data: seq<byte>, k: nat)
    requires 32 * k + 32 <= |data|
  {
    U16(Record(data, k), 0) != 0
  }

  /** The rules for one record alone: it names an inode in use, of the type it says, whose parent is the directory, by a
      name of 1 to 23 bytes, ended by a NUL, UTF-8 and without a slash. */
  predicate RecordRules(inodes: seq<Inode>, dir: int, rec: seq<byte>)
    requires |inodes| == INODES && |rec| == 32
  {
    && EntryOf(rec).ino < INODES && inodes[EntryOf(rec).ino].used != 0
      && inodes[EntryOf(rec).ino].typ == EntryOf(rec).typ
    && inodes[EntryOf(rec).ino].parent == dir && 0 in rec[3..27] && ValidName(EntryOf(rec).name)
  }

  ghost predicate Follows(inodes: seq<Inode>, dir: int, data: seq<byte>, n: nat)
    requires |inodes| == INODES && 32 * n <= |data|
  {
    && (forall k | 0 <= k < n && Taken(data, k) :: RecordRules(inodes, dir, Record(data, k)))
    && (forall j, k | 0 <= j < k < n && Taken(data, j) && Taken(data, k) ::
          EntryOf(Record(data, j)).name != EntryOf(Record(data, k)).name)
  }

  /** A directory can be read exactly when all its taken records follow the rules and no two have the same name; and
      then its entries are those of the taken records, no more and no fewer. */
  lemma {:induction false} EntriesAre(inodes: seq<Inode>, dir: int, data: seq<byte>, n: nat)
    requires |inodes| == INODES && 32 * n <= |data|
    ensures Entries(inodes, dir, data, n).Some? <==> Follows(inodes, dir, data, n)
    ensures Entries(inodes, dir, data, n).Some? ==> forall e ::
              e in Entries(inodes, dir, data, n).value <==>
              exists k :: 0 <= k < n && Taken(data, k) && e == EntryOf(Record(data, k))
    decreases n
  {
    if n > 0 {
      EntriesAre(inodes, dir, data, n - 1);
      var before, rec := Entries(inodes, dir, data, n - 1), Record(data, n - 1);
      if before.Some? && Taken(data, n - 1) {
        FreshAmong(inodes, dir, data, n - 1, before.value, EntryOf(rec).name);
        assert RecordOk(inodes, dir, rec, before.value) <==>
               RecordRules(inodes, dir, rec) && Fresh(EntryOf(rec).name, before.value);
      }
    }
  }

  lemma FreshAmong(inodes: seq<Inode>, dir: int, data: seq<byte>, n: nat, es: seq<Entry>, name: seq<byte>)
    requires |inodes| == INODES && 32 * n <= |data|
    requires forall e :: e in es <==> exists k :: 0 <= k < n && Taken(data, k) && e == EntryOf(Record(data, k))
    ensures Fresh(name, es) <==> forall k | 0 <= k < n && Taken(data, k) :: EntryOf(Record(data, k)).name != name
  {
    if k :| 0 <= k < n && Taken(data, k) && EntryOf(Record(data, k)).name == name {
      assert EntryOf(Record(data, k)) in es;
    } else if Fresh(name, es) {
    } else {
      var m :| 0 <= m < |es| && es[m].name == name;
      assert es[m] in es;
    }
  }

  lemma TreeConsistent(img: Image, l: Layout, inodes: seq<Inode>)
    requires l.Holds(img) && Packed(inodes)
    ensures TreeOf(img, l, inodes).Consistent() && KidsOfDirs(TreeOf(img, l, inodes))
  {
    var t := TreeOf(img, l, inodes);
    forall i, j | 0 <= i < INODES && t.kids[i].Some? && 0 <= j < |t.kids[i].value|
      ensures t.GoodKid(i, t.kids[i].value[j])
    {
      var data := ReadFile(img, l, inodes[i]).value;
      EntriesChecked(inodes, i, data, inodes[i].size / 32);
    }
  }

  // ---------------------------------------------------------------- the rules

  predicate SuperOk(img: Image, l: Layout)
    requires l.Holds(img)
  {
    var s := img[l.start];
    U32(s, 0) == MAGIC && U32(s, 4) == INODES && U32(s, 8) == l.Blocks() && U32(s, 12) == l.DataLba()
  }

  predicate InodeOk(l: Layout, inodes: seq<Inode>, i: nat)
    requires |inodes| == INODES && i < INODES
  {
    var n := inodes[i];
    if n.used == 0 then n.Blank()
    else
      && n.used == 1
      && (n.typ == DIR || n.typ == FILE)
      && (i != ROOT ==> 0 <= n.parent < INODES && IsDir(inodes[n.parent]))
      && n.size <= l.Blocks() * 512
  }

  predicate RootInodeOk(inodes: seq<Inode>)
    requires |inodes| == INODES
  {
    IsDir(inodes[ROOT]) && inodes[ROOT].parent == ROOT
  }

  ghost predicate InodesOk(l: Layout, inodes: seq<Inode>)
    requires |inodes| == INODES
  {
    RootInodeOk(inodes) && forall i | 0 <= i < INODES :: InodeOk(l, inodes, i)
  }

  ghost predicate RefsInRange(img: Image, l: Layout, inodes: seq<Inode>)
    requires l.Holds(img) && |inodes| == INODES
  {
    forall i | 0 <= i < INODES && inodes[i].used != 0 :: InRange(img, l, inodes[i])
  }

  function Bit(img: Image, l: Layout, b: nat): byte
    requires l.Holds(img) && b < l.Blocks()
  {
    img[l.BitmapLba() + b / 512][b % 512]
  }

  function Bits(img: Image, l: Layout): (bits: seq<int>)
    requires l.Holds(img)
    ensures |bits| == l.Blocks()
    ensures forall b | 0 <= b < |bits| :: bits[b] == Bit(img, l, b)
  {
    seq(l.Blocks(), b requires 0 <= b < l.Blocks() => Bit(img, l, b) as int)
  }

  /** No block has two owners, and a block is marked used exactly when it has one. */
  ghost predicate Accounted(img: Image, l: Layout, inodes: seq<Inode>, bits: seq<int>)
    requires l.Holds(img) && |inodes| == INODES && |bits| == l.Blocks()
  {
    forall b | 0 <= b < |bits| :: bits[b] == Total(img, l, inodes, |inodes|, b + 1) <= 1
  }

  /** Everything the checker requires except what it says about the bitmap. */
  ghost predicate StructureOk(img: Image, l: Layout, inodes: seq<Inode>)
    requires l.Holds(img)
  {
    && inodes == InodeTable(img, l)
    && SuperOk(img, l) && InodesOk(l, inodes) && RefsInRange(img, l, inodes)
    && (TreeConsistent(img, l, inodes); Reaches(TreeOf(img, l, inodes)))
  }

  /** The images on which a check without repair returns normally. */
  ghost predicate CheckOk(img: Image, l: Layout) {
    && l.Holds(img)
    && StructureOk(img, l, InodeTable(img, l))
    && Accounted(img, l, InodeTable(img, l), Bits(img, l))
  }

  /** Checker soundness.  If a check returns normally then every data block has at most one reference, counting
      direct pointers, tables and table entries of all inodes in use; a bitmap byte is 1 exactly for the blocks that
      have one and 0 otherwise; and every inode in use is the root or is listed by its parent, from where following
      parents leads to the root in finitely many steps. */
  lemma CheckerSound(img: Image, l: Layout)
    requires CheckOk(img, l)
    ensures forall b | 0 <= b < l.Blocks() :: Bits(img, l)[b] == Total(img, l, InodeTable(img, l), INODES, b + 1) <= 1
    ensures TreeOf(img, l, InodeTable(img, l)).Consistent() && TreeOk(TreeOf(img, l, InodeTable(img, l)))
  {
    CheckedTree(img, l, InodeTable(img, l));
  }

  lemma CheckedTree(img: Image, l: Layout, inodes: seq<Inode>)
    requires l.Holds(img) && Packed(inodes) && RootInodeOk(inodes)
    ensures TreeOf(img, l, inodes).Consistent()
    ensures Reaches(TreeOf(img, l, inodes)) <==> TreeOk(TreeOf(img, l, inodes))
  {
    TreeConsistent(img, l, inodes);
    ReachesIffTree(TreeOf(img, l, inodes));
  }

  // ---------------------------------------------------------------- images with the same data area

  ghost predicate SameData(img: Image, img': Image, l: Layout) {
    l.Holds(img) && l.Holds(img') && forall k | l.DataLba() <= k < l.DataLba() + l.Blocks() :: img[k] == img'[k]
  }

  lemma SameDataFrame(img: Image, img': Image, l: Layout, n: Inode)
    requires SameData(img, img', l) && n.Packable()
    ensures Agree(img, img', l, n)
    ensures ReadFile(img', l, n) == ReadFile(img, l, n)
  {
    LayoutFits(l);
    assert Agree(img, img', l, n);
    ReadFileFrame(img, img', l, n);
  }

  /** The inode tables agree on every inode in use, and use the same inodes. */
  ghost predicate SameUsed(inodes: seq<Inode>, inodes': seq<Inode>) {
    && |inodes| == |inodes'| == INODES
    && forall i | 0 <= i < INODES :: inodes'[i] == inodes[i] || (inodes[i].used == 0 && inodes'[i].used == 0)
  }

  lemma {:induction false} TotalFrame(img: Image, img': Image, l: Layout, inodes: seq<Inode>, inodes': seq<Inode>,
                                      n: nat, p: int)
    requires SameData(img, img', l) && SameUsed(inodes, inodes') && Packed(inodes) && n <= INODES
    ensures Total(img', l, inodes', n, p) == Total(img, l, inodes, n, p)
    decreases n
  {
    if n > 0 {
      TotalFrame(img, img', l, inodes, inodes', n - 1, p);
      SameDataFrame(img, img', l, inodes[n - 1]);
      RefsFrame(img, img', l, inodes[n - 1], p);
    }
  }

  lemma {:induction false} EntriesFrame(inodes: seq<Inode>, inodes': seq<Inode>, dir: int, data: seq<byte>, n: nat)
    requires SameUsed(inodes, inodes') && 32 * n <= |data|
    ensures Entries(inodes', dir, data, n) == Entries(inodes, dir, data, n)
  {
    if n > 0 {
      EntriesFrame(inodes, inodes', dir, data, n - 1);
    }
  }

  lemma TreeFrame(img: Image, img': Image, l: Layout, inodes: seq<Inode>, inodes': seq<Inode>)
    requires SameData(img, img', l) && SameUsed(inodes, inodes') && Packed(inodes) && Packed(inodes')
    ensures TreeOf(img', l, inodes').kids == TreeOf(img, l, inodes).kids
  {
    forall i | 0 <= i < INODES
      ensures Kids(img', l, inodes', i) == Kids(img, l, inodes, i)
    {
      if inodes[i].used != 0 {
        SameDataFrame(img, img', l, inodes[i]);
        if IsDir(inodes[i]) && inodes[i].size % 32 == 0 && ReadFile(img, l, inodes[i]).Some? {
          EntriesFrame(inodes, inodes', i, ReadFile(img, l, inodes[i]).value, inodes[i].size / 32);
        }
      }
    }
  }
}

/** What a whole session with the image writer comes to: what each file reads as, and what directories list. */
module MiniFsSession {
  import opened Common
  import opened MiniFs
  import opened MiniFsTree
  import opened MiniFsSpec
  import opened MiniFsGrow
  import opened MiniFsDirs

  /** What a client of the writer may ask for. */
  datatype Op = Add(parent: nat, name: seq<byte>, typ: int) | Write(ino: nat, payload: seq<byte>)

  /** What became of it: a file was written, an entry of that name was found or made, or the request did not apply. */
  datatype Outcome = Wrote | Found(ino: nat) | Made(ino: nat) | Passed

  datatype Done = Done(op: Op, out: Outcome)

  function Target(op: Op): set<int> {
    if op.Write? then {op.ino} else {}
  }

  predicate IsFile(n: Inode) {
    n.used != 0 && n.typ == FILE
  }

  predicate Plain(name: seq<byte>) {
    0 !in name && 0x2F !in name
  }

  /** Does directory `dir` list this entry? */
  ghost predicate Lists(img: Image, l: Layout, inodes: seq<Inode>, dir: nat, e: Entry)
    requires l.Holds(img) && Packed(inodes)
  {
    && dir < INODES && IsDir(inodes[dir]) && DirEntries(img, l, inodes, dir).Some?
    && e in DirEntries(img, l, inodes, dir).value
  }

  ghost predicate StillLists(img: Image, l: Layout, inodes: seq<Inode>, img': Image, inodes': seq<Inode>)
    requires l.Holds(img) && l.Holds(img') && Packed(inodes) && Packed(inodes')
  {
    forall d: nat, e: Entry | Lists(img, l, inodes, d, e) :: Lists(img', l, inodes', d, e)
  }

  /** Files other than those written read as before, inodes in use keep their place, and directories still list what
      they listed. */
  ghost predicate Kept(img: Image, l: Layout, inodes: seq<Inode>, img': Image, inodes': seq<Inode>, written: set<int>)
    requires l.Holds(img) && l.Holds(img') && Packed(inodes) && Packed(inodes')
  {
    && NodesKept(inodes, inodes')
    && (forall i | 0 <= i < INODES && i !in written && IsFile(inodes[i]) ::
          ReadFile(img', l, inodes'[i]) == ReadFile(img, l, inodes[i]))
    && StillLists(img, l, inodes, img', inodes')
  }

  lemma NothingKept(img: Image, l: Layout, inodes: seq<Inode>, written: set<int>)
    requires l.Holds(img) && Packed(inodes)
    ensures Kept(img, l, inodes, img, inodes, written)
  {
  }

  lemma KeptTwice(img: Image, l: Layout, inodes: seq<Inode>, img1: Image, inodes1: seq<Inode>, written: set<int>,
                  img2: Image, inodes2: seq<Inode>, written': set<int>)
    requires l.Holds(img) && l.Holds(img1) && l.Holds(img2) && Packed(inodes) && Packed(inodes1) && Packed(inodes2)
    requires Kept(img, l, inodes, img1, inodes1, written) && Kept(img1, l, inodes1, img2, inodes2, written')
    ensures Kept(img, l, inodes, img2, inodes2, written + written')
  {
  }

  /** A directory whose inode and blocks have been left alone has the entries it had. */
  lemma SameEntries(img: Image, l: Layout, inodes: seq<Inode>, img': Image, inodes': seq<Inode>, d: nat)
    requires l.Holds(img) && l.Holds(img') && Packed(inodes) && Packed(inodes') && NodesKept(inodes, inodes')
    requires d < INODES && inodes'[d] == inodes[d] && DirEntries(img, l, inodes, d).Some?
    requires ReadFile(img', l, inodes[d]) == ReadFile(img, l, inodes[d])
    ensures DirEntries(img', l, inodes', d) == DirEntries(img, l, inodes, d)
  {
    EntriesKept(inodes, inodes', d, ReadFile(img, l, inodes[d]).value, inodes[d].size / 32);
  }

  /** Writing one file keeps everything else. */
  lemma FileKept(img: Image, l: Layout, inodes: seq<Inode>, bits: seq<int>, img': Image, inodes': seq<Inode>, ino: nat)
    requires Core(img, l, inodes, bits) && l.Holds(img') && Packed(inodes') && Spared(img, img', l, bits)
    requires ino < INODES && IsFile(inodes[ino]) && inodes' == inodes[ino := inodes'[ino]]
    requires SameNode(inodes[ino], inodes'[ino])
    ensures Kept(img, l, inodes, img', inodes', {ino})
  {
    forall i | 0 <= i < INODES && i != ino && inodes[i].used != 0
      ensures ReadFile(img', l, inodes[i]) == ReadFile(img, l, inodes[i])
    {
      SparedReads(img, img', l, inodes, bits, i);
    }
    forall d: nat, e: Entry | Lists(img, l, inodes, d, e) ensures Lists(img', l, inodes', d, e) {
      SameEntries(img, l, inodes, img', inodes', d);
    }
  }

  /** Adding an entry keeps all files and everything listed before. */
  lemma EntryKept(img: Image, l: Layout, inodes: seq<Inode>, bits: seq<int>, dir: nat, e: Entry, img': Image,
                  inodes': seq<Inode>)
    requires Core(img, l, inodes, bits) && l.Holds(img') && Packed(inodes') && Spared(img, img', l, bits)
    requires dir < INODES && 0 <= e.ino && NodesAdded(inodes, inodes', dir, e.ino, e.typ, inodes'[dir])
    requires DirEntries(img, l, inodes, dir).Some?
    requires DirEntries(img', l, inodes', dir) == Some(DirEntries(img, l, inodes, dir).value + [e])
    ensures Kept(img, l, inodes, img', inodes', {}) && Lists(img', l, inodes', dir, e)
  {
    NodesAddedKept(inodes, inodes', dir, e.ino, e.typ, inodes'[dir]);
    forall i | 0 <= i < INODES && i != dir && inodes[i].used != 0
      ensures ReadFile(img', l, inodes[i]) == ReadFile(img, l, inodes[i]) && inodes'[i] == inodes[i]
    {
      SparedReads(img, img', l, inodes, bits, i);
    }
    forall d: nat, x: Entry | Lists(img, l, inodes, d, x) ensures Lists(img', l, inodes', d, x) {
      if d != dir {
        SameEntries(img, l, inodes, img', inodes', d);
      }
    }
  }

  /** An image with the same data area and the same inodes holds the same files and directories. */
  lemma SameDataKept(img: Image, l: Layout, inodes: seq<Inode>, img': Image)
    requires SameData(img, img', l) && Packed(inodes)
    ensures Kept(img, l, inodes, img', inodes, {})
  {
    forall i | 0 <= i < INODES ensures ReadFile(img', l, inodes[i]) == ReadFile(img, l, inodes[i]) {
      SameDataFrame(img, img', l, inodes[i]);
    }
  }

  lemma FinishedKept(img: Image, l: Layout, inodes: seq<Inode>, img1: Image, inodes1: seq<Inode>, img2: Image,
                     target: nat)
    requires l.Holds(img) && Packed(inodes) && Packed(inodes1) && SameData(img1, img2, l) && target < INODES
    requires Kept(img, l, inodes, img1, inodes1, {target})
    ensures Kept(img, l, inodes, img2, inodes1, {target})
    ensures ReadFile(img2, l, inodes1[target]) == ReadFile(img1, l, inodes1[target])
  {
    SameDataFrame(img1, img2, l, inodes1[target]);
    SameDataKept(img1, l, inodes1, img2);
    KeptTwice(img, l, inodes, img1, inodes1, {target}, img2, inodes1, {});
    assert {target} + {} == {target};
  }

  // ---------------------------------------------------------------- one request

  predicate HasType(n: Inode, typ: int) {
    n.used != 0 && n.typ == typ
  }

  /** A name that the writer accepts but that would break a directory with these entries. */
  predicate Breaks(name: seq<byte>, es: seq<Entry>) {
    1 <= |name| < 24 && ValidUtf8(name) && Fresh(name, es) && !GoodName(name, es)
  }

  /** Does the request make sense in this state?  Adding does unless the name would break the directory. */
  ghost predicate Applies(img: Image, l: Layout, inodes: seq<Inode>, op: Op)
    requires l.Holds(img) && Packed(inodes)
  {
    match op
    case Write(ino, _) => ino < INODES && IsFile(inodes[ino])
    case Add(parent, name, typ) =>
      && parent < INODES && IsDir(inodes[parent]) && (typ == DIR || typ == FILE)
      && DirEntries(img, l, inodes, parent).Some? && !Breaks(name, DirEntries(img, l, inodes, parent).value)
  }

  /** The entry that a request has led to. */
  function EntryFor(d: Done): Entry
    requires d.op.Add? && (d.out.Found? || d.out.Made?)
  {
    Entry(if d.out.Made? then CName(d.op.name) else d.op.name, d.out.ino, d.op.typ)
  }

  /** The effect of a request: a written file reads as the payload; an added name is listed, and a file that was made
      for it is empty; no other inode comes into use. */
  ghost predicate Performed(img: Image, l: Layout, inodes: seq<Inode>, d: Done, img': Image, inodes': seq<Inode>)
    requires l.Holds(img) && l.Holds(img') && Packed(inodes) && Packed(inodes')
  {
    && Kept(img, l, inodes, img', inodes', Target(d.op))
    && (forall i | 0 <= i < INODES && inodes[i].used == 0 && d.out != Made(i) :: inodes'[i].used == 0)
    && (d.out.Passed? <==> !Applies(img, l, inodes, d.op))
    && (d.out.Passed? ==> img' == img && inodes' == inodes)
    && match d.op
       case Write(ino, payload) =>
         (d.out.Passed? || d.out.Wrote?) && (d.out.Wrote? ==> ReadFile(img', l, inodes'[ino]) == Some(payload))
       case Add(parent, name, typ) =>
         && !d.out.Wrote?
         && (!d.out.Passed? ==> Lists(img', l, inodes', parent, EntryFor(d)))
         && (d.out.Made? ==> d.out.ino < INODES && inodes[d.out.ino].used == 0 && HasType(inodes'[d.out.ino], typ)
                             && ReadFile(img', l, inodes'[d.out.ino]) == Some([]))
  }

  /** Adding an entry for a new inode has its effect when the entry is listed and nothing else comes into use. */
  lemma MadeHas(img: Image, l: Layout, inodes: seq<Inode>, dir: nat, name: seq<byte>, typ: int, c: nat, img': Image,
                inodes': seq<Inode>)
    requires l.Holds(img) && l.Holds(img') && Packed(inodes) && Packed(inodes')
    requires Kept(img, l, inodes, img', inodes', {}) && Applies(img, l, inodes, Add(dir, name, typ))
    requires 2 <= c < INODES && inodes[c].used == 0 && HasType(inodes'[c], typ)
    requires ReadFile(img', l, inodes'[c]) == Some([]) && Lists(img', l, inodes', dir, Entry(CName(name), c, typ))
    requires forall i | 0 <= i < INODES && inodes[i].used == 0 && i != c :: inodes'[i].used == 0
    ensures Performed(img, l, inodes, Done(Add(dir, name, typ), Made(c)), img', inodes')
  {
  }

  /** A plain name is listed as it is. */
  lemma PlainPerformed(img: Image, l: Layout, inodes: seq<Inode>, parent: nat, name: seq<byte>, typ: int, out: Outcome,
                       img': Image, inodes': seq<Inode>)
    requires l.Holds(img) && l.Holds(img') && Packed(inodes) && Packed(inodes') && Plain(name)
    requires Performed(img, l, inodes, Done(Add(parent, name, typ), out), img', inodes') && (out.Found? || out.Made?)
    ensures Kept(img, l, inodes, img', inodes', {}) && Lists(img', l, inodes', parent, Entry(name, out.ino, typ))
  {
    CNameWhole(name);
    assert EntryFor(Done(Add(parent, name, typ), out)) == Entry(name, out.ino, typ);
  }

  /** Nothing happens in a request that is passed over. */
  lemma PassedHas(img: Image, l: Layout, inodes: seq<Inode>, op: Op)
    requires l.Holds(img) && Packed(inodes) && !Applies(img, l, inodes, op)
    ensures Performed(img, l, inodes, Done(op, Passed), img, inodes)
  {
  }

  lemma WroteHas(img: Image, l: Layout, inodes: seq<Inode>, ino: nat, payload: seq<byte>, img': Image,
                 inodes': seq<Inode>)
    requires l.Holds(img) && l.Holds(img') && Packed(inodes) && Packed(inodes') && ino < INODES && IsFile(inodes[ino])
    requires inodes' == inodes[ino := inodes'[ino]] && Kept(img, l, inodes, img', inodes', {ino})
    requires ReadFile(img', l, inodes'[ino]) == Some(payload)
    ensures Performed(img, l, inodes, Done(Write(ino, payload), Wrote), img', inodes')
  {
  }

  // ---------------------------------------------------------------- whole sessions

  /** What inode i reads as after these requests: the last payload written to it since it was made, nothing if it has
      only been made, or what it held before. */
  function Expected(log: seq<Done>, i: nat, was: Option<seq<byte>>): Option<seq<byte>> {
    if log == [] then was
    else
      var d := log[|log| - 1];
      if d.out == Made(i) then Some([])
      else if d.out.Wrote? && d.op.Write? && d.op.ino == i then Some(d.op.payload)
      else Expected(log[..|log| - 1], i, was)
  }

  predicate MadeIn(log: seq<Done>, i: nat, typ: int) {
    exists k :: 0 <= k < |log| && log[k].out == Made(i) && log[k].op.Add? && log[k].op.typ == typ
  }

  /** Has inode i this type after these requests? */
  predicate Has(inodes: seq<Inode>, log: seq<Done>, i: nat, typ: int) {
    i < |inodes| && (HasType(inodes[i], typ) || MadeIn(log, i, typ))
  }

  /** Every write to what is a file by then is carried out, and every plain name added to what is a directory by
      then. */
  predicate Carried(inodes: seq<Inode>, before: seq<Done>, d: Done) {
    match d.op
    case Write(ino, payload) =>
      (d.out.Wrote? || d.out.Passed?) && (d.out.Wrote? <==> Has(inodes, before, ino, FILE))
    case Add(parent, name, typ) =>
      && !d.out.Wrote? && (!d.out.Passed? ==> Has(inodes, before, parent, DIR) && (typ == DIR || typ == FILE))
      && (Has(inodes, before, parent, DIR) && (typ == DIR || typ == FILE) && Plain(name) ==> !d.out.Passed?)
  }

  /** The state after the requests of `log` in a session that began with `img` and `inodes`. */
  ghost predicate SoFar(img: Image, l: Layout, inodes: seq<Inode>, img': Image, inodes': seq<Inode>, log: seq<Done>)
    requires l.Holds(img) && l.Holds(img') && Packed(inodes) && Packed(inodes')
  {
    && NodesKept(inodes, inodes') && StillLists(img, l, inodes, img', inodes')
    && AllRead(img, l, inodes, img', inodes', log) && AllTyped(inodes, inodes', log) && AllListed(img', l, inodes', log)
    && (forall k | 0 <= k < |log| :: Carried(inodes, log[..k], log[k]))
  }

  /** Every file reads as the last payload written to it in the session, as nothing if the session made it and has not
      written to it, and as before otherwise. */
  ghost predicate AllRead(img: Image, l: Layout, inodes: seq<Inode>, img': Image, inodes': seq<Inode>, log: seq<Done>)
    requires l.Holds(img) && l.Holds(img') && Packed(inodes) && Packed(inodes')
  {
    forall i | 0 <= i < INODES && IsFile(inodes'[i]) ::
      ReadFile(img', l, inodes'[i]) == Expected(log, i, if IsFile(inodes[i]) then ReadFile(img, l, inodes[i]) else None)
  }

  /** The files and directories are those there were and those the session has made. */
  ghost predicate AllTyped(inodes: seq<Inode>, inodes': seq<Inode>, log: seq<Done>)
    requires |inodes| == |inodes'| == INODES
  {
    forall i, typ | 0 <= i < INODES && (typ == DIR || typ == FILE) ::
      HasType(inodes'[i], typ) <==> Has(inodes, log, i, typ)
  }

  /** Every name that has been added is listed. */
  ghost predicate AllListed(img': Image, l: Layout, inodes': seq<Inode>, log: seq<Done>)
    requires l.Holds(img') && Packed(inodes')
  {
    forall k | 0 <= k < |log| && log[k].op.Add? && (log[k].out.Found? || log[k].out.Made?) ::
      Lists(img', l, inodes', log[k].op.parent, EntryFor(log[k]))
  }

  lemma MadeMore(log: seq<Done>, d: Done, i: nat, typ: int)
    ensures MadeIn(log + [d], i, typ) <==> MadeIn(log, i, typ) || (d.out == Made(i) && d.op.Add? && d.op.typ == typ)
  {
    var more := log + [d];
    if MadeIn(log, i, typ) {
      var k :| 0 <= k < |log| && log[k].out == Made(i) && log[k].op.Add? && log[k].op.typ == typ;
      assert more[k] == log[k];
    }
    assert more[|log|] == d;
  }

  lemma ExpectedMore(log: seq<Done>, d: Done, i: nat, was: Option<seq<byte>>)
    ensures Expected(log + [d], i, was) ==
            if d.out == Made(i) then Some([])
            else if d.out.Wrote? && d.op.Write? && d.op.ino == i then Some(d.op.payload)
            else Expected(log, i, was)
  {
    assert (log + [d])[..|log|] == log;
  }

  lemma ReadNext(img: Image, l: Layout, inodes: seq<Inode>, img1: Image, inodes1: seq<Inode>, log: seq<Done>, d: Done,
                 img2: Image, inodes2: seq<Inode>)
    requires l.Holds(img) && l.Holds(img1) && l.Holds(img2) && Packed(inodes) && Packed(inodes1) && Packed(inodes2)
    requires AllRead(img, l, inodes, img1, inodes1, log) && Performed(img1, l, inodes1, d, img2, inodes2)
    ensures AllRead(img, l, inodes, img2, inodes2, log + [d])
  {
    forall i | 0 <= i < INODES && IsFile(inodes2[i])
      ensures ReadFile(img2, l, inodes2[i]) ==
              Expected(log + [d], i, if IsFile(inodes[i]) then ReadFile(img, l, inodes[i]) else None)
    {
      ExpectedMore(log, d, i, if IsFile(inodes[i]) then ReadFile(img, l, inodes[i]) else None);
    }
  }

  lemma TypedNext(inodes: seq<Inode>, img1: Image, l: Layout, inodes1: seq<Inode>, log: seq<Done>, d: Done, img2: Image,
                  inodes2: seq<Inode>)
    requires l.Holds(img1) && l.Holds(img2) && |inodes| == INODES && Packed(inodes1) && Packed(inodes2)
    requires AllTyped(inodes, inodes1, log) && Performed(img1, l, inodes1, d, img2, inodes2)
    ensures AllTyped(inodes, inodes2, log + [d])
  {
    forall i, typ | 0 <= i < INODES && (typ == DIR || typ == FILE)
      ensures HasType(inodes2[i], typ) <==> Has(inodes, log + [d], i, typ)
    {
      MadeMore(log, d, i, typ);
      assert HasType(inodes1[i], typ) <==> Has(inodes, log, i, typ);
      if inodes1[i].used != 0 {
        KeptNode(inodes1, inodes2, i);
      }
    }
  }

  lemma ListedNext(img1: Image, l: Layout, inodes1: seq<Inode>, log: seq<Done>, d: Done, img2: Image,
                   inodes2: seq<Inode>)
    requires l.Holds(img1) && l.Holds(img2) && Packed(inodes1) && Packed(inodes2)
    requires AllListed(img1, l, inodes1, log) && Performed(img1, l, inodes1, d, img2, inodes2)
    ensures AllListed(img2, l, inodes2, log + [d])
  {
    var more := log + [d];
    forall k | 0 <= k < |more| && more[k].op.Add? && (more[k].out.Found? || more[k].out.Made?)
      ensures Lists(img2, l, inodes2, more[k].op.parent, EntryFor(more[k]))
    {
      if k < |log| {
        assert Lists(img1, l, inodes1, log[k].op.parent, EntryFor(log[k]));
      }
    }
  }

  lemma CarriedNext(inodes: seq<Inode>, img1: Image, l: Layout, inodes1: seq<Inode>, log: seq<Done>, d: Done,
                    img2: Image, inodes2: seq<Inode>)
    requires l.Holds(img1) && l.Holds(img2) && |inodes| == INODES && Packed(inodes1) && Packed(inodes2)
    requires AllTyped(inodes, inodes1, log) && Performed(img1, l, inodes1, d, img2, inodes2)
    requires forall i | 0 <= i < INODES && IsDir(inodes1[i]) :: DirEntries(img1, l, inodes1, i).Some?
    ensures Carried(inodes, log, d)
  {
    match d.op
    case Write(ino, payload) =>
      assert ino < INODES ==> (HasType(inodes1[ino], FILE) <==> Has(inodes, log, ino, FILE));
    case Add(parent, name, typ) =>
      assert parent < INODES ==> (HasType(inodes1[parent], DIR) <==> Has(inodes, log, parent, DIR));
      if parent < INODES && IsDir(inodes1[parent]) && Plain(name) {
        PlainDoesNotBreak(name, DirEntries(img1, l, inodes1, parent).value);
      }
  }

  lemma PlainDoesNotBreak(name: seq<byte>, es: seq<Entry>)
    requires Plain(name)
    ensures !Breaks(name, es)
  {
    if 1 <= |name| < 24 && ValidUtf8(name) && Fresh(name, es) {
      PlainNameGood(name, es);
    }
  }

  /** One more request keeps all of this. */
  lemma SoFarNext(img: Image, l: Layout, inodes: seq<Inode>, img1: Image, inodes1: seq<Inode>, log: seq<Done>, d: Done,
                  img2: Image, inodes2: seq<Inode>)
    requires l.Holds(img) && l.Holds(img1) && l.Holds(img2) && Packed(inodes) && Packed(inodes1) && Packed(inodes2)
    requires SoFar(img, l, inodes, img1, inodes1, log) && Performed(img1, l, inodes1, d, img2, inodes2)
    requires forall i | 0 <= i < INODES && IsDir(inodes1[i]) :: DirEntries(img1, l, inodes1, i).Some?
    ensures SoFar(img, l, inodes, img2, inodes2, log + [d])
  {
    ReadNext(img, l, inodes, img1, inodes1, log, d, img2, inodes2);
    TypedNext(inodes, img1, l, inodes1, log, d, img2, inodes2);
    ListedNext(img1, l, inodes1, log, d, img2, inodes2);
    CarriedNext(inodes, img1, l, inodes1, log, d, img2, inodes2);
    var more := log + [d];
    forall k | 0 <= k < |more| ensures Carried(inodes, more[..k], more[k]) {
      assert more[..k] == log[..k];
    }
  }

  lemma SoFarStart(img: Image, l: Layout, inodes: seq<Inode>)
    requires l.Holds(img) && Packed(inodes)
    ensures SoFar(img, l, inodes, img, inodes, [])
  {
  }

  /** Installing the bitmap changes none of it. */
  lemma SoFarFinished(img: Image, l: Layout, inodes: seq<Inode>, img1: Image, inodes1: seq<Inode>, log: seq<Done>,
                      img2: Image)
    requires l.Holds(img) && Packed(inodes) && Packed(inodes1) && SameData(img1, img2, l)
    requires SoFar(img, l, inodes, img1, inodes1, log)
    ensures SoFar(img, l, inodes, img2, inodes1, log)
  {
    SameDataKept(img1, l, inodes1, img2);
    forall k | 0 <= k < |log| && log[k].op.Add? && (log[k].out.Found? || log[k].out.Made?)
      ensures Lists(img2, l, inodes1, log[k].op.parent, EntryFor(log[k]))
    {
      assert Lists(img1, l, inodes1, log[k].op.parent, EntryFor(log[k]));
    }
  }

  lemma KeptNode(inodes: seq<Inode>, inodes': seq<Inode>, i: nat)
    requires NodesKept(inodes, inodes') && i < INODES && inodes[i].used != 0
    ensures SameNode(inodes[i], inodes'[i])
  {
  }

  /** "games", "doom" and "doom1.wad". */
  function GamesName(): (name: seq<byte>)
    ensures Plain(name)
  {
    [0x67, 0x61, 0x6D, 0x65, 0x73]
  }

  function DoomName(): (name: seq<byte>)
    ensures Plain(name)
  {
    [0x64, 0x6F, 0x6F, 0x6D]
  }

  function WadName(): (name: seq<byte>)
    ensures Plain(name)
  {
    [0x64, 0x6F, 0x6F, 0x6D, 0x31, 0x2E, 0x77, 0x61, 0x64]
  }

  /** Directory `doom` is /games/doom. */
  ghost predicate DoomDir(img: Image, l: Layout, inodes: seq<Inode>, doom: nat)
    requires l.Holds(img) && Packed(inodes)
  {
    exists games: nat :: Lists(img, l, inodes, ROOT, Entry(GamesName(), games, DIR))
                         && Lists(img, l, inodes, games, Entry(DoomName(), doom, DIR))
  }

  lemma DoomDirKept(img: Image, l: Layout, inodes: seq<Inode>, img': Image, inodes': seq<Inode>, doom: nat)
    requires l.Holds(img) && l.Holds(img') && Packed(inodes) && Packed(inodes')
    requires StillLists(img, l, inodes, img', inodes') && DoomDir(img, l, inodes, doom)
    ensures DoomDir(img', l, inodes', doom)
  {
    var games: nat :| Lists(img, l, inodes, ROOT, Entry(GamesName(), games, DIR))
                      && Lists(img, l, inodes, games, Entry(DoomName(), doom, DIR));
    assert Lists(img', l, inodes', ROOT, Entry(GamesName(), games, DIR));
    assert Lists(img', l, inodes', games, Entry(DoomName(), doom, DIR));
  }

  /** The path /games/doom/doom1.wad leads to inode `target`. */
  ghost predicate WadAt(img: Image, l: Layout, inodes: seq<Inode>, target: nat)
    requires l.Holds(img) && Packed(inodes)
  {
    exists doom: nat :: DoomDir(img, l, inodes, doom) && Lists(img, l, inodes, doom, Entry(WadName(), target, FILE))
  }

  lemma WadMade(img: Image, l: Layout, inodes: seq<Inode>, img': Image, inodes': seq<Inode>, doom: nat, target: nat)
    requires l.Holds(img) && l.Holds(img') && Packed(inodes) && Packed(inodes')
    requires StillLists(img, l, inodes, img', inodes') && DoomDir(img, l, inodes, doom)
    requires Lists(img', l, inodes', doom, Entry(WadName(), target, FILE))
    ensures WadAt(img', l, inodes', target)
  {
    DoomDirKept(img, l, inodes, img', inodes', doom);
  }

  lemma WadKept(img: Image, l: Layout, inodes: seq<Inode>, img1: Image, inodes1: seq<Inode>, img2: Image,
                inodes2: seq<Inode>, target: nat)
    requires l.Holds(img) && l.Holds(img1) && l.Holds(img2) && Packed(inodes) && Packed(inodes1) && Packed(inodes2)
    requires Kept(img, l, inodes, img1, inodes1, {}) && WadAt(img1, l, inodes1, target)
    requires Kept(img1, l, inodes1, img2, inodes2, {target})
    ensures Kept(img, l, inodes, img2, inodes2, {target}) && WadAt(img2, l, inodes2, target)
  {
    KeptTwice(img, l, inodes, img1, inodes1, {}, img2, inodes2, {target});
    assert {} + {target} == {target};
    var doom: nat :| DoomDir(img1, l, inodes1, doom) && Lists(img1, l, inodes1, doom, Entry(WadName(), target, FILE));
    WadMade(img1, l, inodes1, img2, inodes2, doom, target);
  }
}

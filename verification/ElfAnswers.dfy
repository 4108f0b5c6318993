/** Which files load, what a load returns, and where the fields of the headers are, said without the passes. */
module ElfAnswers {
  import opened Common
  import opened Elf

  // ---------------------------------------------------------------- the first pass

  /** Does one of the first n segments to load have this page? */
  ghost predicate HasPage(ss: seq<Segment>, n: nat, p: nat)
    requires n <= |ss|
  {
    exists i :: 0 <= i < n && ss[i].Load() && p in PagesOf(ss[i].vaddr, ss[i].memsz)
  }

  /** Memory can be had for every page of segment i that is not there before it is mapped. */
  ghost predicate Obtainable(ss: seq<Segment>, i: nat, pages: set<nat>, grant: nat -> nat -> bool)
    requires i < |ss|
  {
    forall p: nat | p in PagesOf(ss[i].vaddr, ss[i].memsz) && p !in pages && !HasPage(ss, i, p) :: grant(i)(p)
  }

  /** The first n segments to load are valid and can be mapped. */
  ghost predicate Mappable(ss: seq<Segment>, n: nat, size: nat, pages: set<nat>, grant: nat -> nat -> bool)
    requires n <= |ss|
  {
    forall i | 0 <= i < n && ss[i].Load() :: ValidSegment(ss[i], size) && Obtainable(ss, i, pages, grant)
  }

  /** One of the first n segments to load is executable and holds the entry point. */
  ghost predicate EntryInside(ss: seq<Segment>, n: nat, entry: nat)
    requires n <= |ss|
  {
    exists i :: 0 <= i < n && ss[i].Load() && ss[i].X() && EntryIn(entry, ss[i])
  }

  lemma PagesNext(ss: seq<Segment>, n: nat, p: nat)
    requires n < |ss|
    ensures HasPage(ss, n + 1, p) <==>
            HasPage(ss, n, p) || (ss[n].Load() && p in PagesOf(ss[n].vaddr, ss[n].memsz))
  {
  }

  /** The first pass goes through exactly when every segment to load is valid and can be mapped, and then it has added
      exactly their pages. */
  lemma {:induction false} ScanGoesThrough(ss: seq<Segment>, n: nat, size: nat, entry: nat, space: Space,
                                           grant: nat -> nat -> bool)
    requires n <= |ss|
    ensures var r := Scan(ss, n, size, entry, space, grant);
            && (r.ok <==> Mappable(ss, n, size, space.pages, grant))
            && (r.ok ==> forall p: nat :: p in r.space.pages <==> p in space.pages || HasPage(ss, n, p))
    decreases n
  {
    if n > 0 {
      var r := Scan(ss, n - 1, size, entry, space, grant);
      ScanGoesThrough(ss, n - 1, size, entry, space, grant);
      forall p: nat ensures HasPage(ss, n, p) <==>
                            HasPage(ss, n - 1, p)
                              || (ss[n - 1].Load() && p in PagesOf(ss[n - 1].vaddr, ss[n - 1].memsz))
      {
        PagesNext(ss, n - 1, p);
      }
      if r.ok {
        GrantedIs(ss, n - 1, space.pages, r.space.pages, grant);
      }
      assert Scan(ss, n, size, entry, space, grant) == ScanOne(r, ss[n - 1], size, entry, grant(n - 1));
    }
  }

  lemma GrantedIs(ss: seq<Segment>, i: nat, pages: set<nat>, now: set<nat>, grant: nat -> nat -> bool)
    requires i < |ss| && forall p: nat :: p in now <==> p in pages || HasPage(ss, i, p)
    ensures Granted(grant(i), PagesOf(ss[i].vaddr, ss[i].memsz) - now) <==> Obtainable(ss, i, pages, grant)
  {
  }

  lemma {:induction false} ScanSees(ss: seq<Segment>, n: nat, size: nat, entry: nat, space: Space,
                                    grant: nat -> nat -> bool)
    requires n <= |ss| && Scan(ss, n, size, entry, space, grant).ok
    ensures var r := Scan(ss, n, size, entry, space, grant);
            && (r.entryOk <==> EntryInside(ss, n, entry)) && (r.entryOk ==> r.saw)
    decreases n
  {
    if n > 0 {
      ScanSees(ss, n - 1, size, entry, space, grant);
      assert EntryInside(ss, n, entry) <==>
             EntryInside(ss, n - 1, entry) || (ss[n - 1].Load() && ss[n - 1].X() && EntryIn(entry, ss[n - 1]));
    }
  }

  /** The image ends where the last of its segments ends, memory beyond the file part included. */
  ghost predicate EndsAt(ss: seq<Segment>, n: nat, end: nat)
    requires n <= |ss|
  {
    && (forall i | 0 <= i < n && ss[i].Load() :: ss[i].vaddr + ss[i].memsz <= end)
    && (end == LOAD_START || exists i :: 0 <= i < n && ss[i].Load() && end == ss[i].vaddr + ss[i].memsz)
  }

  lemma {:induction false} ScanEndsAt(ss: seq<Segment>, n: nat, size: nat, entry: nat, space: Space,
                                      grant: nat -> nat -> bool)
    requires n <= |ss| && Scan(ss, n, size, entry, space, grant).ok
    ensures EndsAt(ss, n, Scan(ss, n, size, entry, space, grant).end)
    decreases n
  {
    if n > 0 {
      ScanEndsAt(ss, n - 1, size, entry, space, grant);
      var e, s := Scan(ss, n - 1, size, entry, space, grant).end, ss[n - 1];
      var e' := Scan(ss, n, size, entry, space, grant).end;
      assert e' == if s.Load() then Max(e, s.vaddr + s.memsz) else e;
    }
  }

  // ---------------------------------------------------------------- which files load

  /** A file loads if its header is valid, every segment to load is valid, can be mapped and has memory, and the entry
      point lies in an executable one. */
  ghost predicate Loads(file: seq<byte>, space: Space, grant: nat -> nat -> bool) {
    && ValidHeader(file, |file|)
    && var h := HeaderOf(file); var ss := Segments(file, h);
       && Mappable(ss, |ss|, |file|, space.pages, grant) && EntryInside(ss, |ss|, h.entry)
       && forall i | 0 <= i < |ss| && ss[i].Load() :: ss[i].memsz > 0
  }

  /** A load succeeds exactly then, and returns the entry point of the header and the end of the last segment; otherwise
      it returns 0 for both. */
  lemma LoadAnswer(file: seq<byte>, space: Space, grant: nat -> nat -> bool)
    ensures var l := Load(file, space, grant);
            && (l.end != 0 <==> Loads(file, space, grant))
            && (l.end == 0 ==> l.entry == 0)
            && (l.end != 0 ==>
                  var h := HeaderOf(file);
                  l.entry == h.entry && EndsAt(Segments(file, h), h.phnum, l.end) && l.entry < l.end)
  {
    if ValidHeader(file, |file|) {
      var h := HeaderOf(file);
      var ss := Segments(file, h);
      var r := Scan(ss, |ss|, |file|, h.entry, space, grant);
      ScanGoesThrough(ss, |ss|, |file|, h.entry, space, grant);
      if r.ok {
        ScanSees(ss, |ss|, |file|, h.entry, space, grant);
        if r.entryOk {
          ScannedAnswer(file, space, grant, h, ss, r);
        } else {
          Rejected(file, space, grant, h);
        }
      } else {
        Rejected(file, space, grant, h);
      }
    }
  }

  lemma Rejected(file: seq<byte>, space: Space, grant: nat -> nat -> bool, h: Header)
    requires ValidHeader(file, |file|) && h == HeaderOf(file)
    requires var r := Scan(Segments(file, h), h.phnum, |file|, h.entry, space, grant); !r.ok || !r.entryOk
    ensures Load(file, space, grant).end == 0 && Load(file, space, grant).entry == 0
  {
  }

  lemma ScannedAnswer(file: seq<byte>, space: Space, grant: nat -> nat -> bool, h: Header, ss: seq<Segment>, r: Scanned)
    requires ValidHeader(file, |file|) && h == HeaderOf(file) && ss == Segments(file, h)
    requires r == Scan(ss, |ss|, |file|, h.entry, space, grant) && r.ok && r.entryOk && r.saw
    requires EntryInside(ss, |ss|, h.entry)
    ensures var l := Load(file, space, grant);
            && (l.end != 0 <==> forall i | 0 <= i < |ss| && ss[i].Load() :: ss[i].memsz > 0)
            && (l.end == 0 ==> l.entry == 0)
            && (l.end != 0 ==> l.entry == h.entry && EndsAt(ss, |ss|, l.end) && l.entry < l.end)
  {
    EmptySegmentFails(file, space, grant);
    ScanEndsAt(ss, |ss|, |file|, h.entry, space, grant);
    if Load(file, space, grant).end != 0 {
      EndIsScanned(file, space, grant);
      EntryBelowEnd(ss, |ss|, h.entry, r.end);
    }
  }

  lemma EndIsScanned(file: seq<byte>, space: Space, grant: nat -> nat -> bool)
    requires ValidHeader(file, |file|) && Load(file, space, grant).end != 0
    ensures var h := HeaderOf(file);
            Load(file, space, grant).end == Scan(Segments(file, h), h.phnum, |file|, h.entry, space, grant).end
  {
  }

  lemma EntryBelowEnd(ss: seq<Segment>, n: nat, entry: nat, end: nat)
    requires n <= |ss| && EntryInside(ss, n, entry) && EndsAt(ss, n, end)
    ensures entry < end
  {
  }

  lemma {:induction false} ScanElsewhere(ss: seq<Segment>, n: nat, size: nat, entry: nat, space: Space,
                                         grant: nat -> nat -> bool, p: nat)
    requires n <= |ss| && !HasPage(ss, n, p)
    ensures var r := Scan(ss, n, size, entry, space, grant).space;
            (p in r.writable <==> p in space.writable) && (p in r.executable <==> p in space.executable)
    decreases n
  {
    if n > 0 {
      PagesNext(ss, n - 1, p);
      ScanElsewhere(ss, n - 1, size, entry, space, grant, p);
    }
  }

  /** A load adds exactly the pages of its segments; any other page keeps its permissions. */
  lemma LoadElsewhere(file: seq<byte>, space: Space, grant: nat -> nat -> bool, p: nat)
    requires Loads(file, space, grant)
    ensures var l := Load(file, space, grant).space; var ss := Segments(file, HeaderOf(file));
            && (p in l.pages <==> p in space.pages || HasPage(ss, |ss|, p))
            && (!HasPage(ss, |ss|, p) ==>
                  (p in l.writable <==> p in space.writable) && (p in l.executable <==> p in space.executable))
  {
    LoadAnswer(file, space, grant);
    var h := HeaderOf(file);
    var ss := Segments(file, h);
    var r := Scan(ss, |ss|, |file|, h.entry, space, grant);
    ScanGoesThrough(ss, |ss|, |file|, h.entry, space, grant);
    var copied := CopyAll(ss, |ss|, file, r.space);
    var denied := DenyAll(ss, |ss|, copied).1;
    CopyAllPages(ss, |ss|, file, r.space);
    DenyAllIs(ss, |ss|, copied);
    AllowAllIs(ss, |ss|, denied);
    assert Load(file, space, grant).space == AllowAll(ss, |ss|, denied).1;
    if !HasPage(ss, |ss|, p) {
      ScanElsewhere(ss, |ss|, |file|, h.entry, space, grant, p);
      assert !Overlaps(ss, |ss|, p, false, true) && !Overlaps(ss, |ss|, p, true, false)
             && !Overlaps(ss, |ss|, p, false, false);
    }
  }

  // ---------------------------------------------------------------- where the fields are

  /** A number in 2, 4 or 8 bytes, lowest byte first. */
  function Le2(v: nat): (b: seq<byte>)
    ensures |b| == 2
  {
    [v % 256, v / 256 % 256]
  }

  function Le4(v: nat): (b: seq<byte>)
    ensures |b| == 4
  {
    Le2(v % 0x1_0000) + Le2(v / 0x1_0000)
  }

  function Le8(v: nat): (b: seq<byte>)
    ensures |b| == 8
  {
    Le4(v % 0x1_0000_0000) + Le4(v / 0x1_0000_0000)
  }

  lemma ReadLe2(pre: seq<byte>, v: nat, post: seq<byte>)
    requires v <= 0xFFFF
    ensures U16(pre + Le2(v) + post, |pre|) == v
  {
    var b := pre + Le2(v) + post;
    assert b[|pre|] == v % 256 && b[|pre| + 1] == v / 256 % 256;
  }

  lemma ReadLe4(pre: seq<byte>, v: nat, post: seq<byte>)
    requires v <= 0xFFFF_FFFF
    ensures U32(pre + Le4(v) + post, |pre|) == v
  {
    var lo, hi := Le2(v % 0x1_0000), Le2(v / 0x1_0000);
    ReadLe2(pre, v % 0x1_0000, hi + post);
    ReadLe2(pre + lo, v / 0x1_0000, post);
    Regroup(pre, lo, hi, post);
  }

  lemma ReadLe8(pre: seq<byte>, v: nat, post: seq<byte>)
    requires v <= MAX64
    ensures U64(pre + Le8(v) + post, |pre|) == v
  {
    var lo, hi := Le4(v % 0x1_0000_0000), Le4(v / 0x1_0000_0000);
    ReadLe4(pre, v % 0x1_0000_0000, hi + post);
    ReadLe4(pre + lo, v / 0x1_0000_0000, post);
    Regroup(pre, lo, hi, post);
  }

  lemma Regroup(a: seq<byte>, b: seq<byte>, c: seq<byte>, d: seq<byte>)
    ensures a + (b + c) + d == a + b + (c + d) == a + b + c + d
  {
  }

  /** A field of a structure: a number of 2, 4 or 8 bytes, or bytes as they are. */
  datatype Field = Half(value: nat) | Word(value: nat) | Long(value: nat) | Bytes(bytes: seq<byte>) {
    function Size(): nat {
      match this
      case Half(_) => 2
      case Word(_) => 4
      case Long(_) => 8
      case Bytes(b) => |b|
    }

    function Coded(): (c: seq<byte>)
      ensures |c| == Size()
    {
      match this
      case Half(v) => Le2(v)
      case Word(v) => Le4(v)
      case Long(v) => Le8(v)
      case Bytes(b) => b
    }
  }

  /** A structure is its fields one after the other. */
  function Pack(fields: seq<Field>): seq<byte> {
    if fields == [] then [] else fields[0].Coded() + Pack(fields[1..])
  }

  function Offset(fields: seq<Field>, k: nat): nat
    requires k <= |fields|
  {
    if k == 0 then 0 else fields[0].Size() + Offset(fields[1..], k - 1)
  }

  /** The bytes before and after a field of a packed structure. */
  lemma {:induction false} PackSplit(fields: seq<Field>, k: nat) returns (pre: seq<byte>, post: seq<byte>)
    requires k < |fields|
    ensures |pre| == Offset(fields, k) && Pack(fields) == pre + fields[k].Coded() + post
    decreases k
  {
    var first := fields[0].Coded();
    if k == 0 {
      pre, post := [], Pack(fields[1..]);
      assert [] + first + post == first + post;
    } else {
      pre, post := PackSplit(fields[1..], k - 1);
      Regroup(first, pre, fields[k].Coded(), post);
      assert first + (pre + fields[k].Coded() + post) == first + pre + (fields[k].Coded() + post);
      pre := first + pre;
    }
  }

  /** Reading a field of a packed structure where it is gives its value, whatever follows the structure. */
  lemma ReadField(fields: seq<Field>, k: nat, o: nat, rest: seq<byte>)
    requires k < |fields| && o == Offset(fields, k)
    ensures o + fields[k].Size() <= |Pack(fields)|
    ensures var b := Pack(fields) + rest;
            match fields[k]
            case Half(v) => v <= 0xFFFF ==> U16(b, o) == v
            case Word(v) => v <= 0xFFFF_FFFF ==> U32(b, o) == v
            case Long(v) => v <= MAX64 ==> U64(b, o) == v
            case Bytes(c) => b[o..o + |c|] == c
  {
    var pre, post := PackSplit(fields, k);
    Regroup(pre, fields[k].Coded(), post, rest);
    var b := Pack(fields) + rest;
    assert b == pre + fields[k].Coded() + (post + rest);
    match fields[k]
    case Half(v) => if v <= 0xFFFF { ReadLe2(pre, v, post + rest); }
    case Word(v) => if v <= 0xFFFF_FFFF { ReadLe4(pre, v, post + rest); }
    case Long(v) => if v <= MAX64 { ReadLe8(pre, v, post + rest); }
    case Bytes(c) =>
  }

  /** A program header of the ELF64 format: type, flags, offset, virtual and physical address, sizes in the file and in
      memory, alignment. */
  function SegmentFields(s: Segment, paddr: nat, align: nat): seq<Field> {
    [Word(s.typ), Word(s.flags), Long(s.offset), Long(s.vaddr), Long(paddr), Long(s.filesz), Long(s.memsz), Long(align)]
  }

  predicate Encodable(s: Segment) {
    && s.typ <= 0xFFFF_FFFF && s.flags <= 0xFFFF_FFFF && s.offset <= MAX64 && s.vaddr <= MAX64 && s.filesz <= MAX64
    && s.memsz <= MAX64
  }

  /** Reading a program header gives the fields it was made of. */
  lemma SegmentDecoded(s: Segment, paddr: nat, align: nat)
    requires Encodable(s)
    ensures |Pack(SegmentFields(s, paddr, align))| == 56 && SegmentOf(Pack(SegmentFields(s, paddr, align))) == s
  {
    var fs := SegmentFields(s, paddr, align);
    assert Pack(fs) + [] == Pack(fs);
    SegmentOffsets(s, paddr, align);
    ReadField(fs, 0, 0, []);
    ReadField(fs, 1, 4, []);
    ReadField(fs, 2, 8, []);
    ReadField(fs, 3, 16, []);
    ReadField(fs, 5, 32, []);
    ReadField(fs, 6, 40, []);
  }

  lemma SegmentOffsets(s: Segment, paddr: nat, align: nat)
    ensures var fs := SegmentFields(s, paddr, align);
            && |Pack(fs)| == 56 && Offset(fs, 0) == 0 && Offset(fs, 1) == 4 && Offset(fs, 2) == 8
            && Offset(fs, 3) == 16 && Offset(fs, 5) == 32 && Offset(fs, 6) == 40
  {
    var fs := SegmentFields(s, paddr, align);
    OffsetNext(fs, 0);
    OffsetNext(fs, 1);
    OffsetNext(fs, 2);
    OffsetNext(fs, 3);
    OffsetNext(fs, 4);
    OffsetNext(fs, 5);
    OffsetNext(fs, 6);
    OffsetNext(fs, 7);
    OffsetAll(fs);
  }

  lemma {:induction false} OffsetNext(fields: seq<Field>, k: nat)
    requires k < |fields|
    ensures Offset(fields, k + 1) == Offset(fields, k) + fields[k].Size()
    decreases k
  {
    if k > 0 {
      OffsetNext(fields[1..], k - 1);
    }
  }

  lemma {:induction false} OffsetAll(fields: seq<Field>)
    ensures |Pack(fields)| == Offset(fields, |fields|)
    decreases |fields|
  {
    if fields != [] {
      OffsetAll(fields[1..]);
    }
  }

  /** The ELF64 header of an executable for x86-64. */
  function HeaderFields(h: Header, ident: seq<byte>, shoff: nat, flags: nat, sections: seq<byte>): seq<Field> {
    [Bytes([0x7F, 0x45, 0x4C, 0x46, 2, 1] + ident), Half(2), Half(62), Word(1), Long(h.entry), Long(h.phoff),
      Long(shoff),
     Word(flags), Half(64), Half(56), Half(h.phnum), Bytes(sections)]
  }

  /** Such a header is accepted exactly when it has program headers and they lie in the file, and it is read as the
      entry point, the place and the number of program headers that it was made of. */
  lemma HeaderDecoded(h: Header, ident: seq<byte>, shoff: nat, flags: nat, sections: seq<byte>, rest: seq<byte>)
    requires |ident| == 10 && |sections| == 6 && h.entry <= MAX64 && h.phoff <= MAX64 && h.phnum <= 0xFFFF
    ensures var file := Pack(HeaderFields(h, ident, shoff, flags, sections)) + rest;
            && |file| == 64 + |rest| && HeaderOf(file) == h
            && (ValidHeader(file, |file|) <==> h.phnum > 0 && h.phoff + 56 * h.phnum <= |file|)
  {
    var fs := HeaderFields(h, ident, shoff, flags, sections);
    FirstOffsets(h, ident, shoff, flags, sections);
    LastOffsets(h, ident, shoff, flags, sections);
    var file := Pack(fs) + rest;
    ReadField(fs, 0, 0, rest);
    ReadField(fs, 1, 16, rest);
    ReadField(fs, 2, 18, rest);
    ReadField(fs, 3, 20, rest);
    ReadField(fs, 4, 24, rest);
    ReadField(fs, 5, 32, rest);
    ReadField(fs, 8, 52, rest);
    ReadField(fs, 9, 54, rest);
    ReadField(fs, 10, 56, rest);
    Magic(file, ident);
  }

  lemma Magic(file: seq<byte>, ident: seq<byte>)
    requires |ident| == 10 && |file| >= 16 && file[0..16] == [0x7F, 0x45, 0x4C, 0x46, 2, 1] + ident
    ensures file[0] == 0x7F && file[1] == 0x45 && file[2] == 0x4C && file[3] == 0x46 && file[4] == 2 && file[5] == 1
  {
    var m: seq<byte> := [0x7F, 0x45, 0x4C, 0x46, 2, 1] + ident;
    assert forall k | 0 <= k < 16 :: file[k] == file[0..16][k] == m[k];
  }

  lemma FirstOffsets(h: Header, ident: seq<byte>, shoff: nat, flags: nat, sections: seq<byte>)
    requires |ident| == 10
    ensures var fs := HeaderFields(h, ident, shoff, flags, sections);
            && Offset(fs, 0) == 0 && Offset(fs, 1) == 16 && Offset(fs, 2) == 18 && Offset(fs, 3) == 20
            && Offset(fs, 4) == 24 && Offset(fs, 5) == 32 && Offset(fs, 6) == 40
  {
    var fs := HeaderFields(h, ident, shoff, flags, sections);
    OffsetNext(fs, 0);
    OffsetNext(fs, 1);
    OffsetNext(fs, 2);
    OffsetNext(fs, 3);
    OffsetNext(fs, 4);
    OffsetNext(fs, 5);
  }

  lemma LastOffsets(h: Header, ident: seq<byte>, shoff: nat, flags: nat, sections: seq<byte>)
    requires |ident| == 10 && |sections| == 6
    ensures var fs := HeaderFields(h, ident, shoff, flags, sections);
            |Pack(fs)| == 64 && Offset(fs, 8) == 52 && Offset(fs, 9) == 54 && Offset(fs, 10) == 56
  {
    var fs := HeaderFields(h, ident, shoff, flags, sections);
    FirstOffsets(h, ident, shoff, flags, sections);
    OffsetNext(fs, 6);
    OffsetNext(fs, 7);
    OffsetNext(fs, 8);
    OffsetNext(fs, 9);
    OffsetNext(fs, 10);
    OffsetNext(fs, 11);
    OffsetAll(fs);
  }
}

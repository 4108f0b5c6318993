/** The two ELF loaders: one over a buffer that holds the whole file, one that reads the file piece by piece.  Both are
    proved to do exactly what module Elf says, and so they agree. */
module ElfLoad {
  import opened Common
  import opened Elf
  import opened Paging
  import ElfAnswers

  const INT32_MAX: nat := 0x7FFF_FFFF
  const CHUNK: nat := 16384

  // ---------------------------------------------------------------- failures are final

  lemma {:induction false} ScanStuck(ss: seq<Segment>, m: nat, n: nat, size: nat, entry: nat, space: Space,
                                     grant: nat -> nat -> bool)
    requires m <= n <= |ss| && !Scan(ss, m, size, entry, space, grant).ok
    ensures Scan(ss, n, size, entry, space, grant) == Scan(ss, m, size, entry, space, grant)
    decreases n
  {
    if m < n {
      ScanStuck(ss, m, n - 1, size, entry, space, grant);
    }
  }

  lemma {:induction false} DenyStuck(ss: seq<Segment>, m: nat, n: nat, space: Space)
    requires m <= n <= |ss| && !DenyAll(ss, m, space).0
    ensures DenyAll(ss, n, space) == DenyAll(ss, m, space)
    decreases n
  {
    if m < n {
      DenyStuck(ss, m, n - 1, space);
    }
  }

  lemma {:induction false} AllowStuck(ss: seq<Segment>, m: nat, n: nat, space: Space)
    requires m <= n <= |ss| && !AllowAll(ss, m, space).0
    ensures AllowAll(ss, n, space) == AllowAll(ss, m, space)
    decreases n
  {
    if m < n {
      AllowStuck(ss, m, n - 1, space);
    }
  }

  /** The segments to load are inside the load window and mapped. */
  ghost predicate Mapped(ss: seq<Segment>, file: seq<byte>, pages: set<nat>) {
    AllValid(ss, |file|) && forall i | 0 <= i < |ss| && ss[i].Load() :: PagesOf(ss[i].vaddr, ss[i].memsz) <= pages
  }

  /** Part of a segment is mapped when the segment is. */
  lemma PartMapped(s: Segment, pages: set<nat>, va: nat, n: nat)
    requires PagesOf(s.vaddr, s.memsz) <= pages && InWindow(s.vaddr, s.memsz)
    requires s.vaddr <= va && va + n <= s.vaddr + s.memsz && n > 0
    ensures Bounds(va, n) && PagesOf(va, n) <= pages
  {
    forall p: nat | p in PagesOf(va, n) ensures p in pages {
      assert Spans(s.vaddr, s.memsz, p);
    }
  }

  // ---------------------------------------------------------------- the passes, shared by both loaders

  /** What the first pass does with one program header. */
  method ScanSegment(sp: AddressSpace, s: Segment, size: nat, entry: nat, grant: nat -> bool, saw: bool,
                     entryOk: bool, end: nat)
    returns (r: Scanned)
    requires sp.Valid()
    modifies sp
    ensures sp.Valid()
    ensures r == ScanOne(Scanned(true, old(sp.space), saw, entryOk, end), s, size, entry, grant)
    ensures sp.space == r.space
  {
    r := Scanned(true, sp.space, saw, entryOk, end);
    if !s.Load() {
      return;
    }
    if !ValidSegment(s, size) {
      return r.(ok := false);
    }
    var segmentEnd := s.vaddr + s.memsz;
    r := r.(saw := true, end := if segmentEnd > end then segmentEnd else end);
    if s.memsz > 0 {
      var ok := sp.MapUserRange(s.vaddr, s.memsz, grant);
      if !ok {
        return r.(ok := false);
      }
    } else {
      assert MapRange(sp.space, s.vaddr, 0) == sp.space;
    }
    r := r.(space := sp.space, entryOk := entryOk || (s.X() && EntryIn(entry, s)));
  }

  /** The third pass over one program header. */
  method DenySegment(sp: AddressSpace, ghost ss: seq<Segment>, i: nat, s: Segment, ghost before: Space)
    returns (ok: bool)
    requires i < |ss| && s == ss[i] && DenyAll(ss, i, before) == (true, sp.space)
    requires s.Load() ==> InWindow(s.vaddr, s.memsz) && PagesOf(s.vaddr, s.memsz) <= sp.space.pages
    requires sp.Valid()
    modifies sp
    ensures sp.Valid()
    ensures DenyAll(ss, i + 1, before) == (ok, sp.space) && sp.space.pages == old(sp.space).pages
  {
    ok := true;
    if s.Load() && !s.W() {
      ReachedAll(sp.space.pages, s.vaddr, s.memsz);
      ok := sp.SetWritable(s.vaddr, s.memsz, false);
    }
  }

  method AllowSegment(sp: AddressSpace, ghost ss: seq<Segment>, i: nat, s: Segment, ghost before: Space)
    returns (ok: bool)
    requires i < |ss| && s == ss[i] && AllowAll(ss, i, before) == (true, sp.space)
    requires s.Load() ==> InWindow(s.vaddr, s.memsz) && PagesOf(s.vaddr, s.memsz) <= sp.space.pages
    requires sp.Valid()
    modifies sp
    ensures sp.Valid()
    ensures AllowAll(ss, i + 1, before) == (ok, sp.space) && sp.space.pages == old(sp.space).pages
  {
    ok := true;
    if s.Load() && s.W() {
      ReachedAll(sp.space.pages, s.vaddr, s.memsz);
      ok := sp.SetWritable(s.vaddr, s.memsz, true);
      if !ok {
        return;
      }
    }
    if s.Load() && s.X() {
      ReachedAll(sp.space.pages, s.vaddr, s.memsz);
      ok := sp.SetExecutable(s.vaddr, s.memsz, true);
    }
  }

  // ---------------------------------------------------------------- the loader over a buffer

  method HeaderAt(buf: seq<byte>, h: Header, i: nat) returns (s: Segment)
    requires h.phoff + 56 * h.phnum <= |buf| && i < h.phnum
    ensures s == Segments(buf, h)[i]
  {
    SegmentsAre(buf, h, h.phnum, i);
    s := SegmentOf(buf[h.phoff + 56 * i..h.phoff + 56 * i + 56]);
  }

  method ScanBuffer(sp: AddressSpace, buf: seq<byte>, h: Header, grant: nat -> nat -> bool) returns (r: Scanned)
    requires h.phoff + 56 * h.phnum <= |buf|
    requires sp.Valid()
    modifies sp
    ensures sp.Valid()
    ensures r == Scan(Segments(buf, h), h.phnum, |buf|, h.entry, old(sp.space), grant) && sp.space == r.space
  {
    ghost var ss, before := Segments(buf, h), sp.space;
    r := Scanned(true, sp.space, false, false, LOAD_START);
    for i := 0 to h.phnum
      invariant sp.Valid()
      invariant r.ok && r == Scan(ss, i, |buf|, h.entry, before, grant) && sp.space == r.space
    {
      var s := HeaderAt(buf, h, i);
      r := ScanSegment(sp, s, |buf|, h.entry, grant(i), r.saw, r.entryOk, r.end);
      if !r.ok {
        ScanStuck(ss, i + 1, h.phnum, |buf|, h.entry, before, grant);
        return;
      }
    }
  }

  /** The file bytes of a segment followed by its zeros. */
  lemma ImageStored(space: Space, file: seq<byte>, s: Segment)
    requires ValidSegment(s, |file|)
    ensures Store(Store(space, s.vaddr, file[s.offset..s.offset + s.filesz]), s.vaddr + s.filesz,
            Zeros(s.memsz - s.filesz))
            == Store(space, s.vaddr, Image(file, s))
  {
    StoreTwice(space, s.vaddr, file[s.offset..s.offset + s.filesz], Zeros(s.memsz - s.filesz));
  }

  /** The zeros after the file bytes of a segment. */
  method ZeroTail(sp: AddressSpace, s: Segment, ghost file: seq<byte>, ghost before: Space) returns (ok: bool)
    requires ValidSegment(s, |file|) && PagesOf(s.vaddr, s.memsz) <= sp.space.pages
    requires sp.space == Store(before, s.vaddr, file[s.offset..s.offset + s.filesz])
    requires sp.Valid()
    modifies sp
    ensures sp.Valid()
    ensures ok && sp.space == Store(before, s.vaddr, Image(file, s))
  {
    if s.memsz > s.filesz {
      PartMapped(s, sp.space.pages, s.vaddr + s.filesz, s.memsz - s.filesz);
    }
    ImageStored(before, file, s);
    StoreNothing(sp.space, s.vaddr + s.filesz);
    WholeCopy(sp.space.pages, s.vaddr + s.filesz, Zeros(s.memsz - s.filesz));
    ok := sp.ZeroUser(s.vaddr + s.filesz, s.memsz - s.filesz);
  }

  method CopySegment(sp: AddressSpace, buf: seq<byte>, s: Segment) returns (ok: bool)
    requires ValidSegment(s, |buf|) && PagesOf(s.vaddr, s.memsz) <= sp.space.pages
    requires sp.Valid()
    modifies sp
    ensures sp.Valid()
    ensures ok && sp.space == Store(old(sp.space), s.vaddr, Image(buf, s))
  {
    ghost var before := sp.space;
    if s.filesz > 0 {
      PartMapped(s, sp.space.pages, s.vaddr, s.filesz);
    }
    StoreNothing(before, s.vaddr);
    WholeCopy(before.pages, s.vaddr, buf[s.offset..s.offset + s.filesz]);
    ok := sp.CopyToUser(s.vaddr, buf[s.offset..s.offset + s.filesz]);
    if ok {
      ok := ZeroTail(sp, s, buf, before);
    }
  }

  method CopyBuffer(sp: AddressSpace, buf: seq<byte>, h: Header) returns (ok: bool)
    requires h.phoff + 56 * h.phnum <= |buf| && Mapped(Segments(buf, h), buf, sp.space.pages)
    requires sp.Valid()
    modifies sp
    ensures sp.Valid()
    ensures ok && sp.space == CopyAll(Segments(buf, h), h.phnum, buf, old(sp.space))
    ensures sp.space.pages == old(sp.space).pages
  {
    ghost var ss, before := Segments(buf, h), sp.space;
    for i := 0 to h.phnum
      invariant sp.Valid()
      invariant sp.space == CopyAll(ss, i, buf, before) && sp.space.pages == before.pages
    {
      var s := HeaderAt(buf, h, i);
      if s.Load() {
        ok := CopySegment(sp, buf, s);
      }
    }
    ok := true;
  }

  method DenyFromMemory(sp: AddressSpace, buf: seq<byte>, h: Header) returns (ok: bool)
    requires h.phoff + 56 * h.phnum <= |buf| && Mapped(Segments(buf, h), buf, sp.space.pages)
    requires sp.Valid()
    modifies sp
    ensures sp.Valid()
    ensures DenyAll(Segments(buf, h), h.phnum, old(sp.space)) == (ok, sp.space) && sp.space.pages == old(sp.space).pages
  {
    ghost var ss, before := Segments(buf, h), sp.space;
    for i := 0 to h.phnum
      invariant sp.Valid()
      invariant DenyAll(ss, i, before) == (true, sp.space) && sp.space.pages == before.pages
    {
      var s := HeaderAt(buf, h, i);
      ok := DenySegment(sp, ss, i, s, before);
      if !ok {
        DenyStuck(ss, i + 1, h.phnum, before);
        return;
      }
    }
    ok := true;
  }

  method AllowFromMemory(sp: AddressSpace, buf: seq<byte>, h: Header) returns (ok: bool)
    requires h.phoff + 56 * h.phnum <= |buf| && Mapped(Segments(buf, h), buf, sp.space.pages)
    requires sp.Valid()
    modifies sp
    ensures sp.Valid()
    ensures AllowAll(Segments(buf, h), h.phnum, old(sp.space)) == (ok, sp.space)
  {
    ghost var ss, before := Segments(buf, h), sp.space;
    for i := 0 to h.phnum
      invariant sp.Valid()
      invariant AllowAll(ss, i, before) == (true, sp.space) && sp.space.pages == before.pages
    {
      var s := HeaderAt(buf, h, i);
      ok := AllowSegment(sp, ss, i, s, before);
      if !ok {
        AllowStuck(ss, i + 1, h.phnum, before);
        return;
      }
    }
    ok := true;
  }

  method PermissionsFromMemory(sp: AddressSpace, buf: seq<byte>, h: Header) returns (ok: bool)
    requires h.phoff + 56 * h.phnum <= |buf| && Mapped(Segments(buf, h), buf, sp.space.pages)
    requires sp.Valid()
    modifies sp
    ensures sp.Valid()
    ensures Permitted(Segments(buf, h), old(sp.space)) == (ok, sp.space)
  {
    ok := DenyFromMemory(sp, buf, h);
    if ok {
      ok := AllowFromMemory(sp, buf, h);
    }
  }

  /** Both permission passes, one after the other. */
  function Permitted(ss: seq<Segment>, space: Space): (bool, Space) {
    var denied := DenyAll(ss, |ss|, space);
    if !denied.0 then denied else AllowAll(ss, |ss|, denied.1)
  }

  lemma LoadIs(file: seq<byte>, space: Space, grant: nat -> nat -> bool)
    requires ValidHeader(file, |file|)
    requires var h := HeaderOf(file); var r := Scan(Segments(file, h), h.phnum, |file|, h.entry, space, grant);
             r.ok && r.saw && r.entryOk
    ensures var h := HeaderOf(file); var ss := Segments(file, h);
            var r := Scan(ss, h.phnum, |file|, h.entry, space, grant);
            && Mapped(ss, file, r.space.pages)
            && Load(file, space, grant) ==
               (var p := Permitted(ss, CopyAll(ss, h.phnum, file, r.space));
                if p.0 then Loaded(h.entry, r.end, p.1) else Loaded(0, 0, p.1))
  {
    var h := HeaderOf(file);
    ScanOk(Segments(file, h), h.phnum, |file|, h.entry, space, grant);
  }

  /** Load a file that is wholly in memory. */
  method ElfLoadIntoSpace(sp: AddressSpace, buf: seq<byte>, grant: nat -> nat -> bool)
    returns (entry: nat, imageEnd: nat)
    requires sp.Valid()
    modifies sp
    ensures sp.Valid()
    ensures Loaded(entry, imageEnd, sp.space) == Load(buf, old(sp.space), grant)
    ensures imageEnd != 0 <==> ElfAnswers.Loads(buf, old(sp.space), grant)
    ensures imageEnd != 0 ==> var h := HeaderOf(buf);
              entry == h.entry && ElfAnswers.EndsAt(Segments(buf, h), h.phnum, imageEnd)
  {
    ghost var before := sp.space;
    ElfAnswers.LoadAnswer(buf, before, grant);
    if !ValidHeader(buf, |buf|) {
      return 0, 0;
    }
    var h := HeaderOf(buf);
    var r := ScanBuffer(sp, buf, h, grant);
    if !r.ok || !r.saw || !r.entryOk {
      return 0, 0;
    }
    LoadIs(buf, before, grant);
    var ok := CopyBuffer(sp, buf, h);
    ok := PermissionsFromMemory(sp, buf, h);
    if !ok {
      return 0, 0;
    }
    return h.entry, r.end;
  }

  // ---------------------------------------------------------------- the loader that reads a file

  /** A read of at most n bytes at a position; how many come back is up to the file system, but at least one before the
      end of the file. */
  method VfsRead(file: seq<byte>, pos: nat, n: nat, eager: nat) returns (bytes: seq<byte>)
    ensures pos >= |file| || n == 0 ==> bytes == []
    ensures pos < |file| && n > 0 ==> 0 < |bytes| <= n && pos + |bytes| <= |file| && bytes == file[pos..pos + |bytes|]
  {
    if pos >= |file| || n == 0 {
      return [];
    }
    var m := 1 + eager;
    if m > n {
      m := n;
    }
    if pos + m > |file| {
      m := |file| - pos;
    }
    bytes := file[pos..pos + m];
  }

  /** Read exactly n bytes, however short the single reads are. */
  method ReadExactAt(file: seq<byte>, offset: nat, n: nat, eager: nat -> nat) returns (ok: bool, bytes: seq<byte>)
    ensures offset <= INT32_MAX && n <= INT32_MAX && offset + n <= |file| ==> ok
    ensures ok ==> offset <= INT32_MAX && |bytes| == n
    ensures ok && n > 0 ==> offset + n <= |file| && bytes == file[offset..offset + n]
  {
    bytes := [];
    if offset > INT32_MAX || n > INT32_MAX {
      return false, bytes;
    }
    while |bytes| < n
      invariant |bytes| <= n && (|bytes| > 0 ==> offset + |bytes| <= |file| && bytes == file[offset..offset + |bytes|])
      decreases n - |bytes|
    {
      var more := VfsRead(file, offset + |bytes|, n - |bytes|, eager(offset + |bytes|));
      if more == [] {
        return false, bytes;
      }
      bytes := bytes + more;
    }
    ok := true;
  }

  /** Read one program header. */
  method ReadHeader(file: seq<byte>, h: Header, i: nat, eager: nat -> nat) returns (ok: bool, s: Segment)
    requires h.phoff + 56 * h.phnum <= |file| <= INT32_MAX && i < h.phnum
    ensures ok && s == Segments(file, h)[i]
  {
    var bytes;
    ok, bytes := ReadExactAt(file, h.phoff + 56 * i, 56, eager);
    SegmentsAre(file, h, h.phnum, i);
    s := SegmentOf(bytes);
  }

  method ScanFile(sp: AddressSpace, file: seq<byte>, h: Header, grant: nat -> nat -> bool, eager: nat -> nat)
    returns (r: Scanned)
    requires h.phoff + 56 * h.phnum <= |file| <= INT32_MAX
    requires sp.Valid()
    modifies sp
    ensures sp.Valid()
    ensures r == Scan(Segments(file, h), h.phnum, |file|, h.entry, old(sp.space), grant) && sp.space == r.space
  {
    ghost var ss, before := Segments(file, h), sp.space;
    r := Scanned(true, sp.space, false, false, LOAD_START);
    for i := 0 to h.phnum
      invariant sp.Valid()
      invariant r.ok && r == Scan(ss, i, |file|, h.entry, before, grant) && sp.space == r.space
    {
      var ok, s := ReadHeader(file, h, i, eager);
      r := ScanSegment(sp, s, |file|, h.entry, grant(i), r.saw, r.entryOk, r.end);
      if !r.ok {
        ScanStuck(ss, i + 1, h.phnum, |file|, h.entry, before, grant);
        return;
      }
    }
  }

  /** Copy one chunk of the file part of a segment. */
  method CopyChunk(sp: AddressSpace, file: seq<byte>, s: Segment, copied: nat, chunk: nat, eager: nat -> nat)
    returns (ok: bool)
    requires |file| <= INT32_MAX && ValidSegment(s, |file|) && PagesOf(s.vaddr, s.memsz) <= sp.space.pages
    requires copied + chunk <= s.filesz && chunk > 0
    requires sp.Valid()
    modifies sp
    ensures sp.Valid()
    ensures ok && sp.space == Store(old(sp.space), s.vaddr + copied, file[s.offset + copied..s.offset + copied + chunk])
  {
    var bytes;
    ok, bytes := ReadExactAt(file, s.offset + copied, chunk, eager);
    PartMapped(s, sp.space.pages, s.vaddr + copied, chunk);
    WholeCopy(sp.space.pages, s.vaddr + copied, bytes);
    ok := sp.CopyToUser(s.vaddr + copied, bytes);
  }

  /** Copy the file part of a segment, one chunk at a time. */
  method CopyChunks(sp: AddressSpace, file: seq<byte>, s: Segment, eager: nat -> nat) returns (ok: bool)
    requires |file| <= INT32_MAX && ValidSegment(s, |file|) && PagesOf(s.vaddr, s.memsz) <= sp.space.pages
    requires sp.Valid()
    modifies sp
    ensures sp.Valid()
    ensures ok && sp.space == Store(old(sp.space), s.vaddr, file[s.offset..s.offset + s.filesz])
  {
    ghost var before, whole := sp.space, file[s.offset..s.offset + s.filesz];
    var copied := 0;
    StoreNothing(before, s.vaddr);
    while copied < s.filesz
      invariant sp.Valid()
      invariant copied <= s.filesz && sp.space == Store(before, s.vaddr, whole[..copied])
      decreases s.filesz - copied
    {
      var chunk := s.filesz - copied;
      if chunk > CHUNK {
        chunk := CHUNK;
      }
      SliceOf(file, s.offset, s.filesz, copied, chunk);
      NextChunk(before, s.vaddr, whole, copied, chunk);
      ok := CopyChunk(sp, file, s, copied, chunk, eager);
      copied := copied + chunk;
    }
    assert whole[..s.filesz] == whole;
    ok := true;
  }

  lemma SliceOf(file: seq<byte>, offset: nat, n: nat, copied: nat, chunk: nat)
    requires offset + n <= |file| && copied + chunk <= n
    ensures file[offset + copied..offset + copied + chunk] == file[offset..offset + n][copied..copied + chunk]
  {
    var whole := file[offset..offset + n];
    var left, right := file[offset + copied..offset + copied + chunk], whole[copied..copied + chunk];
    forall k | 0 <= k < chunk ensures left[k] == right[k] {
      assert whole[copied + k] == file[offset + (copied + k)];
    }
  }

  method CopyFile(sp: AddressSpace, file: seq<byte>, h: Header, eager: nat -> nat) returns (ok: bool)
    requires h.phoff + 56 * h.phnum <= |file| <= INT32_MAX && Mapped(Segments(file, h), file, sp.space.pages)
    requires sp.Valid()
    modifies sp
    ensures sp.Valid()
    ensures ok && sp.space == CopyAll(Segments(file, h), h.phnum, file, old(sp.space))
    ensures sp.space.pages == old(sp.space).pages
  {
    ghost var ss, before := Segments(file, h), sp.space;
    for i := 0 to h.phnum
      invariant sp.Valid()
      invariant sp.space == CopyAll(ss, i, file, before) && sp.space.pages == before.pages
    {
      var s;
      ok, s := ReadHeader(file, h, i, eager);
      if s.Load() {
        ghost var now := sp.space;
        ok := CopyChunks(sp, file, s, eager);
        ok := ZeroTail(sp, s, file, now);
      }
    }
    ok := true;
  }

  method DenyFromFile(sp: AddressSpace, file: seq<byte>, h: Header, eager: nat -> nat) returns (ok: bool)
    requires h.phoff + 56 * h.phnum <= |file| <= INT32_MAX && Mapped(Segments(file, h), file, sp.space.pages)
    requires sp.Valid()
    modifies sp
    ensures sp.Valid()
    ensures DenyAll(Segments(file, h), h.phnum, old(sp.space)) == (ok, sp.space)
            && sp.space.pages == old(sp.space).pages
  {
    ghost var ss, before := Segments(file, h), sp.space;
    var s;
    for i := 0 to h.phnum
      invariant sp.Valid()
      invariant DenyAll(ss, i, before) == (true, sp.space) && sp.space.pages == before.pages
    {
      ok, s := ReadHeader(file, h, i, eager);
      ok := DenySegment(sp, ss, i, s, before);
      if !ok {
        DenyStuck(ss, i + 1, h.phnum, before);
        return;
      }
    }
    ok := true;
  }

  method AllowFromFile(sp: AddressSpace, file: seq<byte>, h: Header, eager: nat -> nat) returns (ok: bool)
    requires h.phoff + 56 * h.phnum <= |file| <= INT32_MAX && Mapped(Segments(file, h), file, sp.space.pages)
    requires sp.Valid()
    modifies sp
    ensures sp.Valid()
    ensures AllowAll(Segments(file, h), h.phnum, old(sp.space)) == (ok, sp.space)
  {
    ghost var ss, before := Segments(file, h), sp.space;
    var s;
    for i := 0 to h.phnum
      invariant sp.Valid()
      invariant AllowAll(ss, i, before) == (true, sp.space) && sp.space.pages == before.pages
    {
      ok, s := ReadHeader(file, h, i, eager);
      ok := AllowSegment(sp, ss, i, s, before);
      if !ok {
        AllowStuck(ss, i + 1, h.phnum, before);
        return;
      }
    }
    ok := true;
  }

  method PermissionsFromFile(sp: AddressSpace, file: seq<byte>, h: Header, eager: nat -> nat) returns (ok: bool)
    requires h.phoff + 56 * h.phnum <= |file| <= INT32_MAX && Mapped(Segments(file, h), file, sp.space.pages)
    requires sp.Valid()
    modifies sp
    ensures sp.Valid()
    ensures Permitted(Segments(file, h), old(sp.space)) == (ok, sp.space)
  {
    ok := DenyFromFile(sp, file, h, eager);
    if ok {
      ok := AllowFromFile(sp, file, h, eager);
    }
  }

  /** Only the first 64 bytes matter for the header. */
  lemma HeaderPrefix(file: seq<byte>, bytes: seq<byte>)
    requires |file| >= 64 && bytes == file[..64]
    ensures ValidHeader(bytes, |file|) <==> ValidHeader(file, |file|)
    ensures HeaderOf(bytes) == HeaderOf(file)
  {
    assert forall k | 0 <= k < 64 :: bytes[k] == file[k];
  }

  /** Load a file by reading it. For every stable file of at most INT32_MAX bytes, however short the single reads are,
      the outcome is that of the loader over a buffer: the same entry, end, bytes and permissions. */
  method ElfLoadFileIntoSpace(sp: AddressSpace, file: seq<byte>, grant: nat -> nat -> bool, eager: nat -> nat)
    returns (entry: nat, imageEnd: nat)
    requires |file| <= INT32_MAX
    requires sp.Valid()
    modifies sp
    ensures sp.Valid()
    ensures Loaded(entry, imageEnd, sp.space) == Load(file, old(sp.space), grant)
    ensures imageEnd != 0 <==> ElfAnswers.Loads(file, old(sp.space), grant)
    ensures imageEnd != 0 ==> var h := HeaderOf(file);
              entry == h.entry && ElfAnswers.EndsAt(Segments(file, h), h.phnum, imageEnd)
  {
    ghost var before := sp.space;
    ElfAnswers.LoadAnswer(file, before, grant);
    var ok, bytes := ReadExactAt(file, 0, 64, eager);
    if !ok {
      return 0, 0;
    }
    HeaderPrefix(file, bytes);
    if !ValidHeader(bytes, |file|) {
      return 0, 0;
    }
    var h := HeaderOf(bytes);
    var r := ScanFile(sp, file, h, grant, eager);
    if !r.ok || !r.saw || !r.entryOk {
      return 0, 0;
    }
    LoadIs(file, before, grant);
    ok := CopyFile(sp, file, h, eager);
    ok := PermissionsFromFile(sp, file, h, eager);
    if !ok {
      return 0, 0;
    }
    return h.entry, r.end;
  }

  /** The loaders agree: from the same address space, with the same memory to be had, they return the same entry and end
      and leave the same bytes and permissions. */
  method LoadersAgree(file: seq<byte>, space: Space, grant: nat -> nat -> bool, eager: nat -> nat)
    returns (a: Loaded, b: Loaded)
    requires |file| <= INT32_MAX && Proper(space)
    ensures a == b == Load(file, space, grant)
  {
    var sp := new AddressSpace(space);
    var sp' := new AddressSpace(space);
    var entry, end := ElfLoadIntoSpace(sp, file, grant);
    var entry', end' := ElfLoadFileIntoSpace(sp', file, grant, eager);
    a, b := Loaded(entry, end, sp.space), Loaded(entry', end', sp'.space);
  }
}

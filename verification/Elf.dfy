/** What loading an ELF64 executable means: which files are accepted, and what the address space holds afterwards.

    Memory is a map from addresses to bytes; an address of a mapped page that is not in the map holds zero.  Permissions
    go by page. */
module Elf {
  import opened Common

  const LOAD_START: nat := 0x1_0000_0000
  const LOAD_END: nat := 0x2_0000_0000
  const SPACE_END: nat := 0x8000_0000_0000
  const MAX64: nat := 0xFFFF_FFFF_FFFF_FFFF

  // ---------------------------------------------------------------- headers

  function U16(b: seq<byte>, o: nat): (v: nat)
    requires o + 2 <= |b|
    ensures v <= 0xFFFF
  {
    b[o] as int + 256 * (b[o + 1] as int)
  }

  function U32(b: seq<byte>, o: nat): (v: nat)
    requires o + 4 <= |b|
    ensures v <= 0xFFFF_FFFF
  {
    U16(b, o) + 0x1_0000 * U16(b, o + 2)
  }

  function U64(b: seq<byte>, o: nat): (v: nat)
    requires o + 8 <= |b|
    ensures v <= MAX64
  {
    U32(b, o) + 0x1_0000_0000 * U32(b, o + 4)
  }

  datatype Header = Header(entry: nat, phoff: nat, phnum: nat)

  function HeaderOf(b: seq<byte>): (h: Header)
    requires |b| >= 64
    ensures h.entry <= MAX64 && h.phoff <= MAX64 && h.phnum <= 0xFFFF
  {
    Header(U64(b, 24), U64(b, 32), U16(b, 56))
  }

  predicate RangeInFile(offset: nat, length: nat, size: nat) {
    offset <= size && length <= size - offset
  }

  /** The first 64 bytes are an acceptable header for a file of this size. */
  predicate ValidHeader(b: seq<byte>, size: nat) {
    && |b| >= 64 && size >= 64
    && b[0] == 0x7F && b[1] == 0x45 && b[2] == 0x4C && b[3] == 0x46
    && b[4] == 2 && b[5] == 1
    && U16(b, 16) == 2 && U16(b, 18) == 62 && U32(b, 20) == 1
    && U16(b, 52) == 64 && U16(b, 54) == 56 && U16(b, 56) != 0
    && RangeInFile(U64(b, 32), U16(b, 56) * 56, size)
  }

  datatype Segment = Segment(typ: nat, flags: nat, offset: nat, vaddr: nat, filesz: nat, memsz: nat) {
    predicate Load() {
      typ == 1
    }

    predicate W() {
      flags / 2 % 2 == 1
    }

    predicate X() {
      flags % 2 == 1
    }
  }

  function SegmentOf(b: seq<byte>): (s: Segment)
    requires |b| >= 56
    ensures s.offset <= MAX64 && s.vaddr <= MAX64 && s.filesz <= MAX64 && s.memsz <= MAX64
  {
    Segment(U32(b, 0), U32(b, 4), U64(b, 8), U64(b, 16), U64(b, 32), U64(b, 40))
  }

  /** Program header i of a file. */
  function SegmentAt(file: seq<byte>, h: Header, i: nat): Segment
    requires i < h.phnum && h.phoff + 56 * h.phnum <= |file|
  {
    SegmentOf(file[h.phoff + 56 * i..h.phoff + 56 * i + 56])
  }

  /** The first n program headers of a file. */
  function SegmentsTo(file: seq<byte>, h: Header, n: nat): (ss: seq<Segment>)
    requires n <= h.phnum && h.phoff + 56 * h.phnum <= |file|
    ensures |ss| == n
  {
    if n == 0 then [] else SegmentsTo(file, h, n - 1) + [SegmentAt(file, h, n - 1)]
  }

  function Segments(file: seq<byte>, h: Header): (ss: seq<Segment>)
    requires h.phoff + 56 * h.phnum <= |file|
    ensures |ss| == h.phnum
  {
    SegmentsTo(file, h, h.phnum)
  }

  lemma {:induction false} SegmentsAre(file: seq<byte>, h: Header, n: nat, i: nat)
    requires i < n <= h.phnum && h.phoff + 56 * h.phnum <= |file|
    ensures SegmentsTo(file, h, n)[i] == SegmentAt(file, h, i)
    decreases n
  {
    assert SegmentsTo(file, h, n) == SegmentsTo(file, h, n - 1) + [SegmentAt(file, h, n - 1)];
    if i < n - 1 {
      SegmentsAre(file, h, n - 1, i);
    }
  }

  predicate InWindow(address: nat, length: nat) {
    address >= LOAD_START && address + length <= MAX64 && address + length <= LOAD_END
  }

  predicate ValidSegment(s: Segment, size: nat) {
    s.filesz <= s.memsz && RangeInFile(s.offset, s.filesz, size) && InWindow(s.vaddr, s.memsz)
  }

  predicate EntryIn(entry: nat, s: Segment) {
    s.memsz > 0 && s.vaddr <= entry < s.vaddr + s.memsz
  }

  // ---------------------------------------------------------------- address spaces

  datatype Space = Space(pages: set<nat>, mem: map<nat, byte>, writable: set<nat>, executable: set<nat>)

  predicate Spans(va: nat, size: nat, p: nat) {
    size > 0 && va / 4096 <= p <= (va + size - 1) / 4096
  }

  /** Permissions and bytes belong to pages that are there: a page not mapped has neither. */
  ghost predicate Proper(s: Space) {
    s.writable <= s.pages && s.executable <= s.pages && forall a | a in s.mem :: a / 4096 in s.pages
  }

  /** The pages that share an address with a range. */
  function PagesOf(va: nat, size: nat): (r: set<nat>)
    ensures forall p: nat :: p in r <==> Spans(va, size, p)
  {
    set p: nat | p < va + size && Spans(va, size, p)
  }

  function At(s: Space, a: nat): byte {
    if a in s.mem then s.mem[a] else 0
  }

  /** Bytes stored from an address on. */
  function Put(mem: map<nat, byte>, va: nat, bytes: seq<byte>): map<nat, byte> {
    if bytes == [] then mem
    else Put(mem, va, bytes[..|bytes| - 1])[va + (|bytes| - 1) := bytes[|bytes| - 1]]
  }

  predicate Bounds(va: nat, size: nat) {
    size > 0 && va >= LOAD_START && va + size <= SPACE_END
  }

  /** New pages are blank, writable and not executable; pages that exist stay as they are. */
  function MapPages(s: Space, ps: set<nat>): Space {
    s.(pages := s.pages + ps, writable := s.writable + (ps - s.pages))
  }

  function MapRange(s: Space, va: nat, size: nat): Space {
    MapPages(s, PagesOf(va, size))
  }

  /** Can memory be had for all these pages? */
  predicate Granted(grant: nat -> bool, ps: set<nat>) {
    forall p | p in ps :: grant(p)
  }

  function Store(s: Space, va: nat, bytes: seq<byte>): Space {
    s.(mem := Put(s.mem, va, bytes))
  }

  function Zeros(n: nat): (z: seq<byte>)
    ensures |z| == n && forall k | 0 <= k < n :: z[k] == 0
  {
    seq(n, k => 0)
  }

  lemma {:induction false} PutAt(mem: map<nat, byte>, va: nat, bytes: seq<byte>, a: nat)
    ensures va <= a < va + |bytes| ==> a in Put(mem, va, bytes) && Put(mem, va, bytes)[a] == bytes[a - va]
    ensures !(va <= a < va + |bytes|) && a in mem ==> a in Put(mem, va, bytes) && Put(mem, va, bytes)[a] == mem[a]
    ensures !(va <= a < va + |bytes|) && a !in mem ==> a !in Put(mem, va, bytes)
    decreases |bytes|
  {
    if bytes != [] {
      PutAt(mem, va, bytes[..|bytes| - 1], a);
    }
  }

  lemma {:induction false} PutTwice(mem: map<nat, byte>, va: nat, a: seq<byte>, b: seq<byte>)
    ensures Put(Put(mem, va, a), va + |a|, b) == Put(mem, va, a + b)
    decreases |b|
  {
    if b == [] {
      assert a + b == a;
    } else {
      assert (a + b)[..|a + b| - 1] == a + b[..|b| - 1];
      PutTwice(mem, va, a, b[..|b| - 1]);
    }
  }

  /** Copying in pieces is copying at once. */
  lemma StoreTwice(s: Space, va: nat, a: seq<byte>, b: seq<byte>)
    ensures Store(Store(s, va, a), va + |a|, b) == Store(s, va, a + b)
  {
    PutTwice(s.mem, va, a, b);
  }

  lemma StoreNothing(s: Space, va: nat)
    ensures Store(s, va, []) == s
  {
  }

  // ---------------------------------------------------------------- loading

  /** What the first pass has found: whether all is well, the space with what it has mapped, whether there was a segment
      to load, whether one of them holds the entry point, and the end of the image. */
  datatype Scanned = Scanned(ok: bool, space: Space, saw: bool, entryOk: bool, end: nat)

  function Max(a: nat, b: nat): nat {
    if a > b then a else b
  }

  function ScanOne(r: Scanned, s: Segment, size: nat, entry: nat, grant: nat -> bool): Scanned {
    if !r.ok || !s.Load() then r
    else if !ValidSegment(s, size) then r.(ok := false)
    else if !Granted(grant, PagesOf(s.vaddr, s.memsz) - r.space.pages)
      then r.(ok := false, saw := true, end := Max(r.end, s.vaddr + s.memsz))
    else Scanned(true, MapRange(r.space, s.vaddr, s.memsz), true, r.entryOk || (s.X() && EntryIn(entry, s)),
                 Max(r.end, s.vaddr + s.memsz))
  }

  /** The first pass over the first n program headers; `grant(i)(p)` says whether memory for page p can be had for the
      i-th. */
  function Scan(ss: seq<Segment>, n: nat, size: nat, entry: nat, space: Space, grant: nat -> nat -> bool): Scanned
    requires n <= |ss|
  {
    if n == 0 then Scanned(true, space, false, false, LOAD_START)
    else ScanOne(Scan(ss, n - 1, size, entry, space, grant), ss[n - 1], size, entry, grant(n - 1))
  }

  /** The bytes of a segment: what the file has, then zeros. */
  function Image(file: seq<byte>, s: Segment): seq<byte>
    requires RangeInFile(s.offset, s.filesz, |file|) && s.filesz <= s.memsz
  {
    file[s.offset..s.offset + s.filesz] + Zeros(s.memsz - s.filesz)
  }

  predicate AllValid(ss: seq<Segment>, size: nat) {
    forall i | 0 <= i < |ss| && ss[i].Load() :: ValidSegment(ss[i], size)
  }

  /** The second pass: copy the segments in the order of their headers. */
  function CopyAll(ss: seq<Segment>, n: nat, file: seq<byte>, space: Space): Space
    requires n <= |ss| && AllValid(ss, |file|)
  {
    if n == 0 then space
    else
      var sp := CopyAll(ss, n - 1, file, space);
      if ss[n - 1].Load() then Store(sp, ss[n - 1].vaddr, Image(file, ss[n - 1])) else sp
  }

  /** The third pass takes write permission away; it fails on a segment without memory. */
  function DenyAll(ss: seq<Segment>, n: nat, space: Space): (bool, Space)
    requires n <= |ss|
  {
    if n == 0 then (true, space)
    else
      var r := DenyAll(ss, n - 1, space);
      var s := ss[n - 1];
      if !r.0 || !s.Load() || s.W() then r
      else if s.memsz == 0 then (false, r.1)
      else (true, r.1.(writable := r.1.writable - PagesOf(s.vaddr, s.memsz)))
  }

  /** The last pass gives write and execute permission where a segment asks for it. */
  function AllowAll(ss: seq<Segment>, n: nat, space: Space): (bool, Space)
    requires n <= |ss|
  {
    if n == 0 then (true, space)
    else
      var r := AllowAll(ss, n - 1, space);
      var s := ss[n - 1];
      if !r.0 || !s.Load() || (!s.W() && !s.X()) then r
      else if s.memsz == 0 then (false, r.1)
      else (true, r.1.(writable := if s.W() then r.1.writable + PagesOf(s.vaddr, s.memsz) else r.1.writable,
                       executable := if s.X() then r.1.executable + PagesOf(s.vaddr, s.memsz) else r.1.executable))
  }

  /** The outcome of a load: the entry point and the end of the image, both 0 on failure, and the space. */
  datatype Loaded = Loaded(entry: nat, end: nat, space: Space)

  function Load(file: seq<byte>, space: Space, grant: nat -> nat -> bool): Loaded {
    if !ValidHeader(file, |file|) then Loaded(0, 0, space)
    else
      var h := HeaderOf(file);
      var ss := Segments(file, h);
      var r := Scan(ss, |ss|, |file|, h.entry, space, grant);
      if !r.ok || !r.saw || !r.entryOk then Loaded(0, 0, r.space)
      else
        ScanOk(ss, |ss|, |file|, h.entry, space, grant);
        var copied := CopyAll(ss, |ss|, file, r.space);
        var denied := DenyAll(ss, |ss|, copied);
        if !denied.0 then Loaded(0, 0, denied.1)
        else
          var allowed := AllowAll(ss, |ss|, denied.1);
          if !allowed.0 then Loaded(0, 0, allowed.1) else Loaded(h.entry, r.end, allowed.1)
  }

  // ---------------------------------------------------------------- what the passes do

  /** A first pass that succeeds has validated every segment to load and mapped all its pages. */
  lemma {:induction false} ScanOk(ss: seq<Segment>, n: nat, size: nat, entry: nat, space: Space,
                                  grant: nat -> nat -> bool)
    requires n <= |ss| && Scan(ss, n, size, entry, space, grant).ok
    ensures forall i | 0 <= i < n && ss[i].Load() :: ValidSegment(ss[i], size)
    ensures forall i | 0 <= i < n && ss[i].Load() ::
              PagesOf(ss[i].vaddr, ss[i].memsz) <= Scan(ss, n, size, entry, space, grant).space.pages
    decreases n
  {
    if n > 0 {
      ScanOk(ss, n - 1, size, entry, space, grant);
    }
  }

  /** The first pass writes no byte and touches no page that was there before. */
  lemma {:induction false} ScanHarmless(ss: seq<Segment>, n: nat, size: nat, entry: nat, space: Space,
                                        grant: nat -> nat -> bool)
    requires n <= |ss|
    ensures var r := Scan(ss, n, size, entry, space, grant);
            && r.space.mem == space.mem && r.space.executable == space.executable && space.pages <= r.space.pages
            && (forall p: nat | p in space.pages :: p in r.space.writable <==> p in space.writable)
    decreases n
  {
    if n > 0 {
      ScanHarmless(ss, n - 1, size, entry, space, grant);
    }
  }

  ghost predicate Overlaps(ss: seq<Segment>, n: nat, p: nat, write: bool, deny: bool)
    requires n <= |ss|
  {
    exists i :: 0 <= i < n && ss[i].Load() && p in PagesOf(ss[i].vaddr, ss[i].memsz)
                && (if deny then !ss[i].W() else if write then ss[i].W() else ss[i].X())
  }

  lemma OverlapsNext(ss: seq<Segment>, n: nat, p: nat, write: bool, deny: bool)
    requires n < |ss|
    ensures Overlaps(ss, n + 1, p, write, deny) <==>
            || Overlaps(ss, n, p, write, deny)
            || (ss[n].Load() && p in PagesOf(ss[n].vaddr, ss[n].memsz)
                && (if deny then !ss[n].W() else if write then ss[n].W() else ss[n].X()))
  {
  }

  lemma {:induction false} DenyAllIs(ss: seq<Segment>, n: nat, space: Space)
    requires n <= |ss|
    ensures var r := DenyAll(ss, n, space);
            && r.1.mem == space.mem && r.1.pages == space.pages && r.1.executable == space.executable
            && (r.0 <==> forall i | 0 <= i < n && ss[i].Load() && !ss[i].W() :: ss[i].memsz > 0)
            && (r.0 ==> forall p: nat :: p in r.1.writable <==> p in space.writable && !Overlaps(ss, n, p, false, true))
    decreases n
  {
    if n > 0 {
      DenyAllIs(ss, n - 1, space);
      forall p: nat
        ensures Overlaps(ss, n, p, false, true) <==>
                  (Overlaps(ss, n - 1, p, false, true)
                    || (ss[n - 1].Load() && p in PagesOf(ss[n - 1].vaddr, ss[n - 1].memsz) && !ss[n - 1].W()))
      {
        OverlapsNext(ss, n - 1, p, false, true);
      }
    }
  }

  lemma {:induction false} AllowAllIs(ss: seq<Segment>, n: nat, space: Space)
    requires n <= |ss|
    ensures var r := AllowAll(ss, n, space);
            && r.1.mem == space.mem && r.1.pages == space.pages
            && (r.0 <==> forall i | 0 <= i < n && ss[i].Load() && (ss[i].W() || ss[i].X()) :: ss[i].memsz > 0)
            && (r.0 ==> forall p: nat :: p in r.1.writable <==> p in space.writable || Overlaps(ss, n, p, true, false))
            && (r.0 ==> forall p: nat ::
              p in r.1.executable <==> p in space.executable || Overlaps(ss, n, p, false, false))
    decreases n
  {
    if n > 0 {
      AllowAllIs(ss, n - 1, space);
      forall p: nat
        ensures Overlaps(ss, n, p, true, false) <==>
                  (Overlaps(ss, n - 1, p, true, false)
                    || (ss[n - 1].Load() && p in PagesOf(ss[n - 1].vaddr, ss[n - 1].memsz) && ss[n - 1].W()))
        ensures Overlaps(ss, n, p, false, false) <==>
                  (Overlaps(ss, n - 1, p, false, false)
                    || (ss[n - 1].Load() && p in PagesOf(ss[n - 1].vaddr, ss[n - 1].memsz) && ss[n - 1].X()))
      {
        OverlapsNext(ss, n - 1, p, true, false);
        OverlapsNext(ss, n - 1, p, false, false);
      }
    }
  }

  lemma {:induction false} CopyAllPages(ss: seq<Segment>, n: nat, file: seq<byte>, space: Space)
    requires n <= |ss| && AllValid(ss, |file|)
    ensures var r := CopyAll(ss, n, file, space);
            r.pages == space.pages && r.writable == space.writable && r.executable == space.executable
    decreases n
  {
    if n > 0 {
      CopyAllPages(ss, n - 1, file, space);
    }
  }

  /** A byte of a segment that no later one covers is that of the file, or zero beyond the file part. */
  lemma {:induction false} CopyAllBytes(ss: seq<Segment>, n: nat, file: seq<byte>, space: Space, i: nat, a: nat)
    requires n <= |ss| && AllValid(ss, |file|) && i < n && ss[i].Load()
    requires ss[i].vaddr <= a < ss[i].vaddr + ss[i].memsz
    requires forall j | i < j < n && ss[j].Load() :: !(ss[j].vaddr <= a < ss[j].vaddr + ss[j].memsz)
    ensures At(CopyAll(ss, n, file, space), a) ==
            if a < ss[i].vaddr + ss[i].filesz then file[ss[i].offset + (a - ss[i].vaddr)] else 0
    decreases n
  {
    if i < n - 1 {
      CopyAllBytes(ss, n - 1, file, space, i, a);
    }
    if ss[n - 1].Load() {
      PutAt(CopyAll(ss, n - 1, file, space).mem, ss[n - 1].vaddr, Image(file, ss[n - 1]), a);
    }
  }

  /** Bytes outside all segments stay as they were. */
  lemma {:induction false} CopyAllElsewhere(ss: seq<Segment>, n: nat, file: seq<byte>, space: Space, a: nat)
    requires n <= |ss| && AllValid(ss, |file|)
    requires forall i | 0 <= i < n && ss[i].Load() :: !(ss[i].vaddr <= a < ss[i].vaddr + ss[i].memsz)
    ensures At(CopyAll(ss, n, file, space), a) == At(space, a)
    decreases n
  {
    if n > 0 {
      CopyAllElsewhere(ss, n - 1, file, space, a);
      if ss[n - 1].Load() {
        PutAt(CopyAll(ss, n - 1, file, space).mem, ss[n - 1].vaddr, Image(file, ss[n - 1]), a);
      }
    }
  }

  // ---------------------------------------------------------------- main results

  /** No user byte is written before all headers and the entry point have been validated: when the header, a segment or
      the entry point is bad, or memory runs out, every byte reads as before and no existing page changes. */
  lemma BadFilesWriteNothing(file: seq<byte>, space: Space, grant: nat -> nat -> bool)
    requires !ValidHeader(file, |file|) || (
               var h := HeaderOf(file);
               var ss := Segments(file, h);
               var r := Scan(ss, |ss|, |file|, h.entry, space, grant);
               !r.ok || !r.saw || !r.entryOk)
    ensures var l := Load(file, space, grant);
            && l.entry == 0 && l.end == 0 && l.space.mem == space.mem && l.space.executable == space.executable
            && space.pages <= l.space.pages
            && forall p: nat | p in space.pages :: p in l.space.writable <==> p in space.writable
  {
    if ValidHeader(file, |file|) {
      var h := HeaderOf(file);
      var ss := Segments(file, h);
      ScanHarmless(ss, |ss|, |file|, h.entry, space, grant);
    }
  }

  /** After a successful load a page that a segment overlaps is writable exactly when some writable segment overlaps it,
      and executable exactly when it was or some executable segment overlaps it, whatever the order of the headers. */
  lemma LoadPermissions(file: seq<byte>, space: Space, grant: nat -> nat -> bool, p: nat)
    requires ValidHeader(file, |file|) && Load(file, space, grant).end != 0
    ensures var l := Load(file, space, grant);
            var ss := Segments(file, HeaderOf(file));
            && (p in l.space.executable <==> p in space.executable || Overlaps(ss, |ss|, p, false, false))
            && (Overlaps(ss, |ss|, p, true, false) ==> p in l.space.writable)
            && (Overlaps(ss, |ss|, p, false, true) && !Overlaps(ss, |ss|, p, true, false) ==> p !in l.space.writable)
  {
    var h := HeaderOf(file);
    var ss := Segments(file, h);
    var r := Scan(ss, |ss|, |file|, h.entry, space, grant);
    ScanOk(ss, |ss|, |file|, h.entry, space, grant);
    ScanHarmless(ss, |ss|, |file|, h.entry, space, grant);
    var copied := CopyAll(ss, |ss|, file, r.space);
    CopyAllPages(ss, |ss|, file, r.space);
    DenyAllIs(ss, |ss|, copied);
    AllowAllIs(ss, |ss|, DenyAll(ss, |ss|, copied).1);
  }

  /** After a successful load every byte of a segment that no later one covers is that of the file, or zero beyond the
      file part. */
  lemma LoadBytes(file: seq<byte>, space: Space, grant: nat -> nat -> bool, i: nat, a: nat)
    requires ValidHeader(file, |file|) && Load(file, space, grant).end != 0
    requires var ss := Segments(file, HeaderOf(file));
             && i < |ss| && ss[i].Load() && ss[i].vaddr <= a < ss[i].vaddr + ss[i].memsz
             && forall j | i < j < |ss| && ss[j].Load() :: !(ss[j].vaddr <= a < ss[j].vaddr + ss[j].memsz)
    ensures var s := Segments(file, HeaderOf(file))[i];
            && RangeInFile(s.offset, s.filesz, |file|)
            && At(Load(file, space, grant).space, a) ==
               if a < s.vaddr + s.filesz then file[s.offset + (a - s.vaddr)] else 0
  {
    var h := HeaderOf(file);
    var ss := Segments(file, h);
    var r := Scan(ss, |ss|, |file|, h.entry, space, grant);
    ScanOk(ss, |ss|, |file|, h.entry, space, grant);
    var copied := CopyAll(ss, |ss|, file, r.space);
    CopyAllBytes(ss, |ss|, file, r.space, i, a);
    DenyAllIs(ss, |ss|, copied);
    AllowAllIs(ss, |ss|, DenyAll(ss, |ss|, copied).1);
  }

  /** A file that passes validation loads exactly when no segment to load is without memory: a permission call for an
      empty range is an error, after the bytes of the other segments have been written. */
  lemma EmptySegmentFails(file: seq<byte>, space: Space, grant: nat -> nat -> bool)
    requires ValidHeader(file, |file|)
    requires var h := HeaderOf(file);
             var r := Scan(Segments(file, h), h.phnum, |file|, h.entry, space, grant); r.ok && r.saw && r.entryOk
    ensures var h := HeaderOf(file);
            var ss := Segments(file, h);
            if forall i | 0 <= i < |ss| && ss[i].Load() :: ss[i].memsz > 0
            then Load(file, space, grant).entry == h.entry && Load(file, space, grant).end != 0
            else Load(file, space, grant).entry == 0 && Load(file, space, grant).end == 0
  {
    var h := HeaderOf(file);
    var ss := Segments(file, h);
    var r := Scan(ss, |ss|, |file|, h.entry, space, grant);
    ScanOk(ss, |ss|, |file|, h.entry, space, grant);
    ScanEnd(ss, |ss|, |file|, h.entry, space, grant);
    var copied := CopyAll(ss, |ss|, file, r.space);
    DenyAllIs(ss, |ss|, copied);
    AllowAllIs(ss, |ss|, DenyAll(ss, |ss|, copied).1);
  }

  /** A file of 176 bytes: the header, an executable segment of one byte of memory that holds the entry point, and a
      read-only segment without memory. */
  predicate Small(file: seq<byte>) {
    |file| == 176 && forall i | 0 <= i < 176 :: file[i] == SmallByte(i)
  }

  function SmallFile(): (file: seq<byte>)
    ensures Small(file)
  {
    seq(176, i requires 0 <= i < 176 => SmallByte(i))
  }

  function SmallByte(i: nat): byte {
    match i
    case 0 => 0x7F
    case 1 => 0x45
    case 2 => 0x4C
    case 3 => 0x46
    case 4 => 2        // 64-bit
    case 5 => 1        // little-endian
    case 16 => 2       // executable
    case 18 => 62      // x86-64
    case 20 => 1       // version
    case 28 => 1       // entry 0x1_0000_0000
    case 32 => 64      // program headers at 64
    case 52 => 64
    case 54 => 56
    case 56 => 2       // two of them
    case 64 => 1       // to load
    case 68 => 5       // readable and executable
    case 84 => 1       // at 0x1_0000_0000
    case 104 => 1      // one byte of memory
    case 120 => 1      // to load
    case 124 => 4      // readable
    case 140 => 1      // at 0x1_0000_0000
    case _ => 0
  }

  lemma Words(file: seq<byte>, lo: nat, k: nat)
    requires lo + 56 <= |file| && k + 4 <= 56
    ensures U32(file[lo..lo + 56], k) == U32(file, lo + k)
    ensures k + 8 <= 56 ==> U64(file[lo..lo + 56], k) == U64(file, lo + k)
  {
  }

  /** A program header is where it is in the file. */
  lemma SegmentIn(file: seq<byte>, h: Header, i: nat, o: nat)
    requires i < h.phnum && h.phoff + 56 * h.phnum <= |file| && o == h.phoff + 56 * i
    ensures SegmentAt(file, h, i) == Segment(U32(file, o), U32(file, o + 4), U64(file, o + 8), U64(file, o + 16),
                                             U64(file, o + 32), U64(file, o + 40))
  {
    Words(file, o, 0);
    Words(file, o, 4);
    Words(file, o, 8);
    Words(file, o, 16);
    Words(file, o, 32);
    Words(file, o, 40);
  }

  /** Four bytes of the file, of which only the first may be other than zero. */
  lemma SmallWord(file: seq<byte>, i: nat, v: nat)
    requires Small(file) && i + 4 <= 176 && v == SmallByte(i)
    requires SmallByte(i + 1) == SmallByte(i + 2) == SmallByte(i + 3) == 0
    ensures U32(file, i) == v && U16(file, i) == v
  {
  }

  lemma SmallLong(file: seq<byte>, i: nat, low: nat, high: nat)
    requires Small(file) && i + 8 <= 176 && low == SmallByte(i) && high == SmallByte(i + 4)
    requires SmallByte(i + 1) == SmallByte(i + 2) == SmallByte(i + 3) == 0
    requires SmallByte(i + 5) == SmallByte(i + 6) == SmallByte(i + 7) == 0
    ensures U64(file, i) == low + 0x1_0000_0000 * high
  {
    SmallWord(file, i, low);
    SmallWord(file, i + 4, high);
  }

  lemma SmallHeader(file: seq<byte>)
    requires Small(file)
    ensures ValidHeader(file, 176) && HeaderOf(file) == Header(LOAD_START, 64, 2)
  {
    SmallWord(file, 20, 1);
    SmallLong(file, 24, 0, 1);
    SmallLong(file, 32, 64, 0);
    SmallWord(file, 56, 2);
  }

  lemma SmallCode(file: seq<byte>, h: Header)
    requires Small(file) && h == Header(LOAD_START, 64, 2)
    ensures SegmentAt(file, h, 0) == Segment(1, 5, 0, LOAD_START, 0, 1)
  {
    SegmentIn(file, h, 0, 64);
    SmallWord(file, 64, 1);
    SmallWord(file, 68, 5);
    SmallLong(file, 72, 0, 0);
    SmallLong(file, 80, 0, 1);
    SmallLong(file, 96, 0, 0);
    SmallLong(file, 104, 1, 0);
  }

  lemma SmallData(file: seq<byte>, h: Header)
    requires Small(file) && h == Header(LOAD_START, 64, 2)
    ensures SegmentAt(file, h, 1) == Segment(1, 4, 0, LOAD_START, 0, 0)
  {
    SegmentIn(file, h, 1, 120);
    SmallWord(file, 120, 1);
    SmallWord(file, 124, 4);
    SmallLong(file, 128, 0, 0);
    SmallLong(file, 136, 0, 1);
    SmallLong(file, 152, 0, 0);
    SmallLong(file, 160, 0, 0);
  }

  lemma TwoSegments(file: seq<byte>, h: Header)
    requires h.phnum == 2 && h.phoff + 56 * h.phnum <= |file|
    ensures Segments(file, h) == [SegmentAt(file, h, 0), SegmentAt(file, h, 1)]
  {
    assert SegmentsTo(file, h, 1) == SegmentsTo(file, h, 0) + [SegmentAt(file, h, 0)];
  }

  /** This file passes validation, and fails to load all the same. */
  lemma SmallFileFails(file: seq<byte>, space: Space, grant: nat -> nat -> bool)
    requires Small(file) && grant(0)(LOAD_START / 4096)
    ensures ValidHeader(file, 176)
    ensures var h := HeaderOf(file);
            var r := Scan(Segments(file, h), h.phnum, 176, h.entry, space, grant); r.ok && r.saw && r.entryOk
    ensures Load(file, space, grant).entry == 0 && Load(file, space, grant).end == 0
  {
    var h := HeaderOf(file);
    SmallHeader(file);
    SmallCode(file, h);
    SmallData(file, h);
    TwoSegments(file, h);
    SmallScan(space, grant);
    var ss := Segments(file, h);
    assert ss[1].Load() && ss[1].memsz == 0;
    EmptySegmentFails(file, space, grant);
  }

  lemma SmallScan(space: Space, grant: nat -> nat -> bool)
    requires grant(0)(LOAD_START / 4096)
    ensures var ss := [Segment(1, 5, 0, LOAD_START, 0, 1), Segment(1, 4, 0, LOAD_START, 0, 0)];
            var r := Scan(ss, 2, 176, LOAD_START, space, grant); r.ok && r.saw && r.entryOk
  {
    var s0, s1 := Segment(1, 5, 0, LOAD_START, 0, 1), Segment(1, 4, 0, LOAD_START, 0, 0);
    var ss, r0 := [s0, s1], Scanned(true, space, false, false, LOAD_START);
    var r1 := ScanOne(r0, s0, 176, LOAD_START, grant(0));
    assert Granted(grant(0), PagesOf(LOAD_START, 1) - space.pages) && r1.ok && r1.entryOk;
    assert Scan(ss, 0, 176, LOAD_START, space, grant) == r0;
    assert Scan(ss, 1, 176, LOAD_START, space, grant) == r1;
    assert Scan(ss, 2, 176, LOAD_START, space, grant) == ScanOne(r1, s1, 176, LOAD_START, grant(1));
  }

  lemma {:induction false} ScanEnd(ss: seq<Segment>, n: nat, size: nat, entry: nat, space: Space,
                                   grant: nat -> nat -> bool)
    requires n <= |ss|
    ensures Scan(ss, n, size, entry, space, grant).end >= LOAD_START
    decreases n
  {
    if n > 0 {
      ScanEnd(ss, n - 1, size, entry, space, grant);
    }
  }
}

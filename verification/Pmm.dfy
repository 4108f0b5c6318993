/** The physical page allocator: next fit over a bitmap, with a rover, skip-ahead and wrap-around.

    The bitmap is an array with one flag per managed page, true for used. */
module Pmm {
  /** Managed pages: 4 KiB each, up to 0xE0000000. */
  function Pages(): nat {
    917504
  }

  const RESERVE: nat := 4096  // pages kept back from user allocations
  const MAX64: nat := 0xFFFF_FFFF_FFFF_FFFF

  // ---------------------------------------------------------------- ranges of bytes and pages

  /** The page shares a byte with the range. */
  predicate Touches(base: nat, bytes: nat, p: nat) {
    bytes > 0 && base < 4096 * (p + 1) && 4096 * p < base + bytes
  }

  /** The page lies wholly inside the range. */
  predicate Covers(base: nat, bytes: nat, p: nat) {
    bytes > 0 && base <= 4096 * p && 4096 * (p + 1) <= base + bytes
  }

  function AlignDown(v: nat): nat {
    v - v % 4096
  }

  function AlignUp(v: nat): nat
    requires v <= MAX64
  {
    if v > MAX64 - 4095 then AlignDown(MAX64) else AlignDown(v + 4095)
  }

  /** The pages that marking a range looks at: first and one past the last. */
  function MarkSpan(base: nat, bytes: nat, used: bool): (r: (nat, nat))
    requires base <= MAX64 && bytes <= MAX64
    ensures r.1 <= Pages()
  {
    var end := if base + bytes > MAX64 then MAX64 else base + bytes;
    var s := if used then AlignDown(base) else AlignUp(base);
    var e := if used then AlignUp(end) else AlignDown(end);
    if bytes == 0 || e <= s || s >= 0xE000_0000 then (0, 0)
    else (s / 4096, if e > 0xE000_0000 then Pages() else e / 4096)
  }

  /** Marking used rounds outwards, marking free rounds inwards; ranges that run past the end of the address space are
      cut there. */
  lemma MarkSpanIs(base: nat, bytes: nat, used: bool, p: nat)
    requires base <= MAX64 && bytes <= MAX64 && p < Pages()
    ensures MarkSpan(base, bytes, used).0 <= p < MarkSpan(base, bytes, used).1 <==>
            if used then Touches(base, bytes, p) else Covers(base, bytes, p)
  {
    var end := if base + bytes > MAX64 then MAX64 else base + bytes;
    Aligned(base);
    Aligned(end);
    if base <= MAX64 - 4095 {
      Aligned(base + 4095);
    }
    if end <= MAX64 - 4095 {
      Aligned(end + 4095);
    }
  }

  lemma Aligned(v: nat)
    ensures AlignDown(v) == 4096 * (v / 4096) && AlignDown(v) <= v < AlignDown(v) + 4096
    ensures AlignDown(v) / 4096 == v / 4096
  {
  }

  // ---------------------------------------------------------------- counting

  /** How many of the first n pages are free. */
  function Clear(bits: seq<bool>, n: nat): (c: nat)
    requires n <= |bits|
    ensures c <= n
  {
    if n == 0 then 0 else Clear(bits, n - 1) + (if bits[n - 1] then 0 else 1)
  }

  lemma {:induction false} ClearUpdate(bits: seq<bool>, n: nat, i: nat, v: bool)
    requires n <= |bits| && i < |bits|
    ensures Clear(bits[i := v], n) ==
            Clear(bits, n) + if i >= n then 0 else (if v then 0 else 1) - (if bits[i] then 0 else 1)
    decreases n
  {
    if n > 0 {
      ClearUpdate(bits, n - 1, i, v);
    }
  }

  /** The bitmap after the pages in [a, b) have been marked. */
  function Marked(bits: seq<bool>, a: nat, b: nat, used: bool): (r: seq<bool>)
    ensures |r| == |bits|
    ensures forall p | 0 <= p < |r| :: r[p] == if a <= p < b then used else bits[p]
  {
    seq(|bits|, p requires 0 <= p < |bits| => if a <= p < b then used else bits[p])
  }

  lemma MarkedNext(bits: seq<bool>, a: nat, b: nat, used: bool)
    requires a <= b < |bits|
    ensures Marked(bits, a, b + 1, used) == Marked(bits, a, b, used)[b := used]
  {
  }

  lemma MarkedNone(bits: seq<bool>, a: nat, b: nat, used: bool)
    requires b <= a
    ensures Marked(bits, a, b, used) == bits
  {
  }

  // ---------------------------------------------------------------- free runs

  /** n pages in a row from `start` on, all managed and all free. */
  predicate FreeRun(bits: seq<bool>, start: nat, n: nat) {
    start + n <= |bits| && forall p | start <= p < start + n :: !bits[p]
  }

  /** The page that the search looks at after k steps from the rover. */
  function Scan(rover: nat, k: nat): (p: nat)
    requires rover < Pages() && k < Pages()
    ensures p < Pages()
  {
    if rover + k >= Pages() then rover + k - Pages() else rover + k
  }

  lemma ScanReaches(rover: nat, p: nat) returns (k: nat)
    requires rover < Pages() && p < Pages()
    ensures k < Pages() && Scan(rover, k) == p
  {
    k := if p >= rover then p - rover else p + Pages() - rover;
  }

  /** A search that has failed at every step has missed nothing. */
  lemma SearchComplete(bits: seq<bool>, rover: nat, n: nat)
    requires |bits| == Pages() && rover < Pages() && n > 0
    requires forall k | 0 <= k < Pages() :: !FreeRun(bits, Scan(rover, k), n)
    ensures forall start: nat :: !FreeRun(bits, start, n)
  {
    forall start: nat ensures !FreeRun(bits, start, n) {
      if start < Pages() {
        var k := ScanReaches(rover, start);
      }
    }
  }

  /** A used page at start + j rules out all starts up to it. */
  lemma Blocked(bits: seq<bool>, rover: nat, scanned: nat, n: nat, j: nat)
    requires |bits| == Pages() && rover < Pages() && scanned < Pages() && j < n
    requires Scan(rover, scanned) + n <= Pages() && bits[Scan(rover, scanned) + j]
    ensures forall k | scanned <= k < scanned + j + 1 && k < Pages() :: !FreeRun(bits, Scan(rover, k), n)
  {
    forall k | scanned <= k < scanned + j + 1 && k < Pages()
      ensures !FreeRun(bits, Scan(rover, k), n)
    {
      assert Scan(rover, k) == Scan(rover, scanned) + (k - scanned);
      assert bits[Scan(rover, scanned) + j];
    }
  }

  // ---------------------------------------------------------------- live allocations

  datatype Block = Block(start: nat, n: nat)

  predicate In(b: Block, p: int) {
    b.start <= p < b.start + b.n
  }

  /** The blocks handed out and not yet freed: used, managed, apart from each other, and never page 0. */
  ghost predicate Live(bits: seq<bool>, live: seq<Block>) {
    && (forall i | 0 <= i < |live| :: 1 <= live[i].start && live[i].n > 0 && live[i].start + live[i].n <= |bits|)
    && (forall i, p: int {:trigger In(live[i], p)} | 0 <= i < |live| && In(live[i], p) :: 0 <= p < |bits| && bits[p])
    && (forall i, j, p: int {:trigger In(live[i], p), In(live[j], p)} | 0 <= i < j < |live| && In(live[i], p) ::
      !In(live[j], p))
  }

  lemma LiveAllocate(bits: seq<bool>, live: seq<Block>, start: nat, n: nat)
    requires Live(bits, live) && n > 0 && start >= 1 && FreeRun(bits, start, n)
    ensures Live(Marked(bits, start, start + n, true), live + [Block(start, n)])
  {
    var live' := live + [Block(start, n)];
    var bits' := Marked(bits, start, start + n, true);
    forall i, p: int {:trigger In(live'[i], p)} | 0 <= i < |live'| && In(live'[i], p)
      ensures 0 <= p < |bits'| && bits'[p]
    {
      if i < |live| {
        assert In(live[i], p);
      }
    }
    forall i, j, p: int {:trigger In(live'[i], p), In(live'[j], p)} | 0 <= i < j < |live'| && In(live'[i], p)
      ensures !In(live'[j], p)
    {
      assert In(live[i], p);
      if j < |live| {
        assert live'[j] == live[j];
      } else {
        assert bits[p];
      }
    }
  }

  function Without(live: seq<Block>, i: nat): seq<Block>
    requires i < |live|
  {
    live[..i] + live[i + 1..]
  }

  lemma WithoutAt(live: seq<Block>, i: nat, j: nat)
    requires i < |live| && j < |live| - 1
    ensures Without(live, i)[j] == live[if j < i then j else j + 1]
  {
  }

  lemma LiveFree(bits: seq<bool>, live: seq<Block>, i: nat)
    requires Live(bits, live) && i < |live|
    ensures Live(Marked(bits, live[i].start, live[i].start + live[i].n, false), Without(live, i))
  {
    var rest := Without(live, i);
    var bits' := Marked(bits, live[i].start, live[i].start + live[i].n, false);
    forall j | 0 <= j < |rest| ensures 1 <= rest[j].start && rest[j].n > 0 && rest[j].start + rest[j].n <= |bits'| {
      WithoutAt(live, i, j);
    }
    forall j, p: int {:trigger In(rest[j], p)} | 0 <= j < |rest| && In(rest[j], p)
      ensures 0 <= p < |bits'| && bits'[p]
    {
      WithoutAt(live, i, j);
      assert In(live[if j < i then j else j + 1], p) && !In(live[i], p);
    }
    forall j, k, p: int {:trigger In(rest[j], p), In(rest[k], p)} | 0 <= j < k < |rest| && In(rest[j], p)
      ensures !In(rest[k], p)
    {
      WithoutAt(live, i, j);
      WithoutAt(live, i, k);
      assert In(live[if j < i then j else j + 1], p);
    }
  }

  lemma LiveUsed(bits: seq<bool>, live: seq<Block>, i: nat)
    requires Live(bits, live) && i < |live|
    ensures live[i].n > 0 && live[i].start >= 1 && live[i].start + live[i].n <= |bits|
    ensures forall p | live[i].start <= p < live[i].start + live[i].n :: bits[p]
  {
    forall p | live[i].start <= p < live[i].start + live[i].n ensures bits[p] {
      assert In(live[i], p);
    }
  }

  /** Freeing a block by its address clears exactly its pages. */
  lemma FreeSpan(addr: nat, start: nat, n: nat)
    requires n > 0 && start + n <= Pages() && addr == 4096 * start
    ensures addr <= MAX64 && n * 4096 <= MAX64 && addr / 4096 == start
    ensures MarkSpan(addr, n * 4096, false) == (start, start + n)
  {
    assert addr % 4096 == 0 && (addr + n * 4096) % 4096 == 0;
    assert AlignDown(addr + 4095) == addr;
  }

  // ---------------------------------------------------------------- the memory map

  datatype Region = Region(base: nat, length: nat, usable: bool)

  /** The page lies inside one of the first n regions that is usable. */
  predicate Usable(map_: seq<Region>, n: nat, p: nat)
    requires n <= |map_|
  {
    exists i :: 0 <= i < n && map_[i].usable && Covers(map_[i].base, map_[i].length, p)
  }

  predicate Reserved(kernelStart: nat, kernelBytes: nat, p: nat) {
    || Touches(kernelStart, kernelBytes, p) || Touches(0x1000_0000, 0x400_0000, p)
    || Touches(0x1400_0000, 0x400_0000, p) || Touches(0, 0x1000, p)
  }

  predicate Address64(v: nat) {
    v <= MAX64
  }

  /** The run at `start` is free, and no place that a scan from the rover on and around meets earlier is. */
  ghost predicate NextFit(bits: seq<bool>, rover: nat, start: nat, n: nat)
    requires |bits| == Pages() && rover < Pages()
  {
    && FreeRun(bits, start, n)
    && exists k :: 0 <= k < Pages() && Scan(rover, k) == start && forall j | 0 <= j < k ::
      !FreeRun(bits, Scan(rover, j), n)
  }

  class Allocator {
    const bitmap: array<bool>
    var managedPages: nat
    var freePages: nat
    var rover: nat
    ghost var live: seq<Block>

    /** The counter agrees with the bitmap and the rover is in range. */
    ghost predicate Counted()
      reads this, bitmap
    {
      bitmap.Length == Pages() && rover < Pages() && freePages == Clear(bitmap[..], Pages())
    }

    /** Besides, page 0 is used, and so is every page handed out. */
    ghost predicate Valid()
      reads this, bitmap
    {
      Counted() && bitmap[0] && Live(bitmap[..], live)
    }

    /** Mark the pages of a range; the result is how many of them changed. */
    method MarkRange(base: nat, bytes: nat, used: bool) returns (changed: nat)
      requires bitmap.Length == Pages() && base <= MAX64 && bytes <= MAX64
      modifies bitmap
      ensures bitmap[..] == Marked(old(bitmap[..]), MarkSpan(base, bytes, used).0, MarkSpan(base, bytes, used).1, used)
      ensures used ==> Clear(bitmap[..], Pages()) == Clear(old(bitmap[..]), Pages()) - changed
      ensures !used ==> Clear(bitmap[..], Pages()) == Clear(old(bitmap[..]), Pages()) + changed
    {
      ghost var bits := bitmap[..];
      var span := MarkSpan(base, bytes, used);
      changed := 0;
      if span.1 <= span.0 {
        MarkedNone(bits, span.0, span.1, used);
        return;
      }
      MarkedNone(bits, span.0, span.0, used);
      for page := span.0 to span.1
        invariant bitmap[..] == Marked(bits, span.0, page, used)
        invariant used ==> Clear(bitmap[..], Pages()) == Clear(bits, Pages()) - changed
        invariant !used ==> Clear(bitmap[..], Pages()) == Clear(bits, Pages()) + changed
      {
        ClearUpdate(bitmap[..], Pages(), page, used);
        MarkedNext(bits, span.0, page, used);
        if bitmap[page] != used {
          changed := changed + 1;
        }
        bitmap[page] := used;
      }
    }

    method CountFreePages() returns (count: nat)
      requires bitmap.Length == Pages()
      ensures count == Clear(bitmap[..], Pages())
    {
      count := 0;
      for i := 0 to Pages()
        invariant count == Clear(bitmap[..], i)
      {
        if !bitmap[i] {
          count := count + 1;
        }
      }
    }

    /** Look for n free pages in a row, from the rover on and around; `found` is false only when there are none
        anywhere. */
    method Search(n: nat) returns (found: bool, start: nat)
      requires bitmap.Length == Pages() && rover < Pages() && 0 < n <= Pages()
      ensures found ==> NextFit(bitmap[..], rover, start, n)
      ensures !found ==> forall s: nat :: !FreeRun(bitmap[..], s, n)
    {
      var scanned := 0;
      start := 0;
      while scanned < Pages()
        invariant forall k | 0 <= k < scanned && k < Pages() :: !FreeRun(bitmap[..], Scan(rover, k), n)
        decreases Pages() - scanned
      {
        start := rover + scanned;
        if start >= Pages() {
          start := start - Pages();
        }
        if start + n > Pages() {
          TooLate(bitmap[..], rover, scanned, n);
          scanned := scanned + (Pages() - start);
        } else {
          var ok, skip := RunFrom(start, n);
          if ok {
            assert Scan(rover, scanned) == start;
            return true, start;
          }
          Blocked(bitmap[..], rover, scanned, n, skip - 1);
          scanned := scanned + skip;
        }
      }
      SearchComplete(bitmap[..], rover, n);
      found := false;
    }

    /** Are n pages free from `start` on?  If not, how far to skip: past the first used one. */
    method RunFrom(start: nat, n: nat) returns (ok: bool, skip: nat)
      requires bitmap.Length == Pages() && start + n <= Pages() && n > 0
      ensures ok ==> FreeRun(bitmap[..], start, n)
      ensures !ok ==> 1 <= skip <= n && bitmap[start + (skip - 1)]
    {
      skip := 1;
      for j := 0 to n
        invariant forall p | start <= p < start + j :: !bitmap[p]
      {
        if bitmap[start + j] {
          return false, j + 1;
        }
      }
      ok := true;
    }

    /** Mark n free pages used. */
    method TakeRun(start: nat, n: nat)
      requires bitmap.Length == Pages() && FreeRun(bitmap[..], start, n)
      modifies bitmap
      ensures bitmap[..] == Marked(old(bitmap[..]), start, start + n, true)
      ensures Clear(bitmap[..], Pages()) == Clear(old(bitmap[..]), Pages()) - n
    {
      ghost var bits := bitmap[..];
      MarkedNone(bits, start, start, true);
      for j := 0 to n
        invariant bitmap[..] == Marked(bits, start, start + j, true)
        invariant Clear(bitmap[..], Pages()) == Clear(bits, Pages()) - j
      {
        ClearUpdate(bitmap[..], Pages(), start + j, true);
        MarkedNext(bits, start, start + j, true);
        bitmap[start + j] := true;
      }
    }

    /** Allocate n pages in a row, leaving `reserve` pages free. Past the size test it fails only when no such run
        exists; on success exactly one free run has been taken and its address is not 0. */
    method Allocate(n: nat, reserve: nat) returns (addr: nat)
      requires Valid()
      modifies this, bitmap
      ensures Valid()
      ensures addr == 0 ==> bitmap[..] == old(bitmap[..]) && live == old(live) && freePages == old(freePages)
      ensures addr == 0 ==> n == 0 || n > Pages() || n + reserve > old(freePages)
                            || forall s: nat :: !FreeRun(old(bitmap[..]), s, n)
      ensures addr != 0 ==> n > 0 && n + reserve <= old(freePages) && addr % 4096 == 0
      ensures addr != 0 ==> NextFit(old(bitmap[..]), old(rover), addr / 4096, n)
      ensures addr != 0 ==> rover == if addr / 4096 + n == Pages() then 0 else addr / 4096 + n
      ensures addr != 0 ==> bitmap[..] == Marked(old(bitmap[..]), addr / 4096, addr / 4096 + n, true)
      ensures addr != 0 ==> freePages == old(freePages) - n && live == old(live) + [Block(addr / 4096, n)]
    {
      if n == 0 || n > Pages() || n > freePages || reserve > freePages - n {
        return 0;
      }
      var found, start := Search(n);
      if !found {
        return 0;
      }
      ghost var bits := bitmap[..];
      TakeRun(start, n);
      assert start != 0;
      LiveAllocate(bits, live, start, n);
      live := live + [Block(start, n)];
      freePages := freePages - n;
      rover := start + n;
      if rover >= Pages() {
        rover := 0;
      }
      addr := start * 4096;
    }

    /** Pages for a user program: never more than leave the kernel's reserve free. */
    method AllocateUser(n: nat) returns (addr: nat)
      requires Valid()
      modifies this, bitmap
      ensures Valid()
      ensures addr == 0 ==> bitmap[..] == old(bitmap[..]) && live == old(live) && freePages == old(freePages)
      ensures addr == 0 ==> n == 0 || n > Pages() || n + RESERVE > old(freePages)
                            || forall s: nat :: !FreeRun(old(bitmap[..]), s, n)
      ensures addr != 0 ==> freePages == old(freePages) - n && freePages >= RESERVE
      ensures addr != 0 ==> bitmap[..] == Marked(old(bitmap[..]), addr / 4096, addr / 4096 + n, true)
      ensures addr != 0 ==> live == old(live) + [Block(addr / 4096, n)]
    {
      addr := Allocate(n, RESERVE);
    }

    /** Free the pages that lie wholly inside a range, whoever has them. */
    method FreePages(addr: nat, n: nat)
      requires Counted() && addr <= MAX64
      modifies this, bitmap
      ensures Counted() && live == old(live)
      ensures n == 0 || n > Pages() ==> bitmap[..] == old(bitmap[..]) && rover == old(rover)
      ensures 0 < n <= Pages() ==>
                && n * 4096 <= MAX64
                && var span := MarkSpan(addr, n * 4096, false);
                   bitmap[..] == Marked(old(bitmap[..]), span.0, span.1, false)
      ensures 0 < n <= Pages() ==> rover == if addr / 4096 < old(rover) then addr / 4096 else old(rover)
    {
      if n == 0 || n > Pages() {
        return;
      }
      var changed := MarkRange(addr, n * 4096, false);
      freePages := freePages + changed;
      var first := addr / 4096;
      if first < rover {
        rover := first;
      }
    }

    /** Give a live block back. */
    method FreeBlock(addr: nat, n: nat, ghost i: nat)
      requires Valid() && i < |live| && addr == 4096 * live[i].start && n == live[i].n
      modifies this, bitmap
      ensures Valid() && live == Without(old(live), i)
      ensures bitmap[..] == Marked(old(bitmap[..]), addr / 4096, addr / 4096 + n, false)
      ensures freePages == old(freePages) + n
    {
      ghost var bits, b := bitmap[..], live[i];
      FreeSpan(addr, b.start, n);
      LiveFree(bits, live, i);
      LiveUsed(bits, live, i);
      ClearRun(bits, b.start, n);
      FreePages(addr, n);
      live := Without(live, i);
    }

    /** Build the bitmap from the memory map: a page ends up free exactly when it lies wholly inside a usable region
        among the first 128 and touches nothing reserved; overlapping regions count once. */
    constructor (map_: seq<Region>, kernelStart: nat, kernelBytes: nat)
      requires Address64(kernelStart) && Address64(kernelBytes)
      requires forall i | 0 <= i < |map_| :: Address64(map_[i].base) && Address64(map_[i].length)
      ensures Valid() && fresh(bitmap) && live == []
      ensures forall p | 0 <= p < Pages() ::
                !bitmap[p] <==>
                  Usable(map_, if |map_| < 128 then |map_| else 128, p) && !Reserved(kernelStart, kernelBytes, p)
    {
      bitmap := new bool[Pages()](k => true);
      managedPages, freePages, rover, live := 0, 0, 0, [];
      new;
      var n := if |map_| < 128 then |map_| else 128;
      FreeUsable(map_, n);
      Reserve(map_, n, kernelStart, kernelBytes);
      freePages := CountFreePages();
    }

    /** Free the pages inside the usable regions. */
    method FreeUsable(map_: seq<Region>, n: nat)
      requires bitmap.Length == Pages() && n <= |map_| && forall p | 0 <= p < Pages() :: bitmap[p]
      requires forall i | 0 <= i < |map_| :: Address64(map_[i].base) && Address64(map_[i].length)
      modifies bitmap, this`managedPages
      ensures forall p | 0 <= p < Pages() :: !bitmap[p] <==> Usable(map_, n, p)
      ensures managedPages == old(managedPages) + Clear(bitmap[..], Pages())
    {
      ClearAllUsed(bitmap[..], Pages());
      for i := 0 to n
        invariant forall p | 0 <= p < Pages() :: !bitmap[p] <==> Usable(map_, i, p)
        invariant managedPages == old(managedPages) + Clear(bitmap[..], Pages())
      {
        UsableNext(map_, i);
        if map_[i].usable && map_[i].base < 0xE000_0000 {
          var len := map_[i].length;
          if len > 0xE000_0000 - map_[i].base {
            len := 0xE000_0000 - map_[i].base;
          }
          ClippedSpan(map_[i].base, map_[i].length, len);
          var changed := MarkRange(map_[i].base, len, false);
          managedPages := managedPages + changed;
        }
      }
    }

    /** Mark one reserved range used. */
    method ReserveRange(base: nat, bytes: nat)
      requires bitmap.Length == Pages() && base <= MAX64 && bytes <= MAX64
      modifies bitmap
      ensures forall p | 0 <= p < Pages() :: bitmap[p] <==> old(bitmap[p]) || Touches(base, bytes, p)
    {
      forall p | 0 <= p < Pages()
        ensures MarkSpan(base, bytes, true).0 <= p < MarkSpan(base, bytes, true).1 <==> Touches(base, bytes, p)
      {
        MarkSpanIs(base, bytes, true, p);
      }
      ghost var bits := bitmap[..];
      var changed := MarkRange(base, bytes, true);
      assert forall p | 0 <= p < Pages() :: bitmap[p] == bitmap[..][p];
    }

    /** Take back the kernel, the frame buffer, the device window and page 0. */
    method Reserve(ghost map_: seq<Region>, ghost n: nat, kernelStart: nat, kernelBytes: nat)
      requires bitmap.Length == Pages() && Address64(kernelStart) && Address64(kernelBytes) && n <= |map_|
      requires forall p | 0 <= p < Pages() :: !bitmap[p] <==> Usable(map_, n, p)
      modifies bitmap
      ensures bitmap[0]
      ensures forall p | 0 <= p < Pages() ::
              !bitmap[p] <==> Usable(map_, n, p) && !Reserved(kernelStart, kernelBytes, p)
    {
      ReserveRange(kernelStart, kernelBytes);
      ReserveRange(0x1000_0000, 0x400_0000);
      ReserveRange(0x1400_0000, 0x400_0000);
      ReserveRange(0, 0x1000);
      assert Touches(0, 0x1000, 0);
    }
  }

  lemma {:induction false} ClearAllUsed(bits: seq<bool>, n: nat)
    requires n <= |bits| && forall p | 0 <= p < |bits| :: bits[p]
    ensures Clear(bits, n) == 0
    decreases n
  {
    if n > 0 {
      ClearAllUsed(bits, n - 1);
    }
  }

  lemma UsableNext(map_: seq<Region>, n: nat)
    requires n < |map_|
    ensures forall p: nat :: Usable(map_, n + 1, p) <==>
              Usable(map_, n, p) || (map_[n].usable && Covers(map_[n].base, map_[n].length, p))
  {
  }

  lemma ClippedSpan(base: nat, length: nat, len: nat)
    requires base < 0xE000_0000 && base <= MAX64 && length <= MAX64
    requires len == if length > 0xE000_0000 - base then 0xE000_0000 - base else length
    ensures forall p | 0 <= p < Pages() ::
              MarkSpan(base, len, false).0 <= p < MarkSpan(base, len, false).1 <==> Covers(base, length, p)
  {
    forall p | 0 <= p < Pages()
      ensures MarkSpan(base, len, false).0 <= p < MarkSpan(base, len, false).1 <==> Covers(base, length, p)
    {
      MarkSpanIs(base, len, false, p);
    }
  }

  lemma TooLate(bits: seq<bool>, rover: nat, scanned: nat, n: nat)
    requires |bits| == Pages() && rover < Pages() && scanned < Pages() && Scan(rover, scanned) + n > Pages()
    ensures forall k | scanned <= k < scanned + (Pages() - Scan(rover, scanned)) && k < Pages() ::
              !FreeRun(bits, Scan(rover, k), n)
  {
    forall k | scanned <= k < scanned + (Pages() - Scan(rover, scanned)) && k < Pages()
      ensures !FreeRun(bits, Scan(rover, k), n)
    {
      assert Scan(rover, k) == Scan(rover, scanned) + (k - scanned);
    }
  }

  lemma {:induction false} ClearRunTo(bits: seq<bool>, start: nat, n: nat, m: nat)
    requires start + n <= |bits| && m <= |bits| && forall p | start <= p < start + n :: bits[p]
    ensures Clear(Marked(bits, start, start + n, false), m) ==
            Clear(bits, m) + if m <= start then 0 else if m <= start + n then m - start else n
    decreases m
  {
    if m > 0 {
      ClearRunTo(bits, start, n, m - 1);
    }
  }

  lemma ClearRun(bits: seq<bool>, start: nat, n: nat)
    requires |bits| == Pages() && start + n <= Pages() && forall p | start <= p < start + n :: bits[p]
    ensures Clear(Marked(bits, start, start + n, false), Pages()) == Clear(bits, Pages()) + n
  {
    ClearRunTo(bits, start, n, Pages());
  }
}

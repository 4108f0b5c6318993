/** User address spaces: ranges of pages are mapped, protected and written one page after the other. */
module Paging {
  import opened Common
  import opened Elf

  datatype Flag = RW | NX

  /** The space with a flag of these pages set or cleared. */
  function WithFlag(s: Space, ps: set<nat>, flag: Flag, on: bool): Space {
    match flag
    case RW => s.(writable := if on then s.writable + ps else s.writable - ps)
    case NX => s.(executable := if on then s.executable - ps else s.executable + ps)
  }

  predicate Between(first: nat, p: nat, end: nat) {
    first <= p < end
  }

  function Range(first: nat, end: nat): (r: set<nat>)
    ensures forall p: nat :: p in r <==> Between(first, p, end)
  {
    set p: nat | p < end && Between(first, p, end)
  }

  /** The pages of a range before the first that is not mapped. */
  ghost function Reached(pages: set<nat>, va: nat, size: nat): set<nat> {
    set p: nat | p in PagesOf(va, size) && forall q: nat | q in PagesOf(va, size) && q <= p :: q in pages
  }

  /** How many bytes from va on, of n, lie before the first page that is not mapped. */
  ghost function Extent(pages: set<nat>, va: nat, n: nat): (k: nat)
    ensures k <= n && forall a | va <= a < va + k :: a / 4096 in pages
    ensures k < n ==> (va + k) / 4096 !in pages
  {
    if n == 0 then 0
    else
      var k := Extent(pages, va, n - 1);
      if k == n - 1 && (va + k) / 4096 in pages then n else k
  }

  lemma ReachedAll(pages: set<nat>, va: nat, size: nat)
    requires PagesOf(va, size) <= pages
    ensures Reached(pages, va, size) == PagesOf(va, size)
  {
  }

  lemma ExtentWhole(pages: set<nat>, va: nat, n: nat)
    ensures Extent(pages, va, n) == n <==> PagesOf(va, n) <= pages
  {
    if Extent(pages, va, n) == n {
      forall p: nat | p in PagesOf(va, n) ensures p in pages {
        var a := if p * 4096 < va then va else p * 4096;
        assert a / 4096 == p;
      }
    } else {
      var a := va + Extent(pages, va, n);
      assert Spans(va, n, a / 4096);
    }
  }

  lemma ExtentIs(pages: set<nat>, va: nat, n: nat, k: nat)
    requires k <= n && forall a | va <= a < va + k :: a / 4096 in pages
    requires k < n ==> (va + k) / 4096 !in pages
    ensures Extent(pages, va, n) == k
  {
    var e := Extent(pages, va, n);
    var p, q := (va + e) / 4096, (va + k) / 4096;
    assert (e < k ==> p in pages) && (k < e ==> q in pages);
  }

  lemma NextChunk(space: Space, va: nat, whole: seq<byte>, copied: nat, chunk: nat)
    requires copied + chunk <= |whole|
    ensures Store(Store(space, va, whole[..copied]), va + copied, whole[copied..copied + chunk]) ==
            Store(space, va, whole[..copied + chunk])
  {
    StoreTwice(space, va, whole[..copied], whole[copied..copied + chunk]);
    assert whole[..copied] + whole[copied..copied + chunk] == whole[..copied + chunk];
  }

  lemma WholeCopy(pages: set<nat>, va: nat, bytes: seq<byte>)
    requires PagesOf(va, |bytes|) <= pages
    ensures bytes[..Extent(pages, va, |bytes|)] == bytes && Extent(pages, va, |bytes|) == |bytes|
  {
    ExtentWhole(pages, va, |bytes|);
  }

  lemma FlagNext(s: Space, first: nat, p: nat, flag: Flag, on: bool)
    requires first <= p
    ensures WithFlag(WithFlag(s, Range(first, p), flag, on), {p}, flag, on) ==
            WithFlag(s, Range(first, p + 1), flag, on)
  {
    assert Range(first, p + 1) == Range(first, p) + {p};
    assert s.writable - Range(first, p + 1) == s.writable - Range(first, p) - {p};
    assert s.executable - Range(first, p + 1) == s.executable - Range(first, p) - {p};
  }

  function WithoutPage(mem: map<nat, byte>, p: nat): map<nat, byte> {
    map a | a in mem && a / 4096 != p :: mem[a]
  }

  lemma NothingThere(s: Space, p: nat)
    requires Proper(s) && p !in s.pages
    ensures WithoutPage(s.mem, p) == s.mem
  {
  }

  lemma MapNext(s: Space, first: nat, p: nat)
    requires first <= p && p !in s.pages
    ensures var t := MapPages(s, Range(first, p));
            MapPages(s, Range(first, p + 1)) == t.(pages := t.pages + {p}, writable := t.writable + {p})
  {
    assert Range(first, p + 1) == Range(first, p) + {p};
  }

  lemma MapSkips(s: Space, first: nat, p: nat)
    requires first <= p && p in s.pages
    ensures MapPages(s, Range(first, p + 1)) == MapPages(s, Range(first, p))
  {
    assert Range(first, p + 1) == Range(first, p) + {p};
  }

  lemma MapProper(s: Space, ps: set<nat>)
    requires Proper(s)
    ensures Proper(MapPages(s, ps))
  {
  }

  /** Taking the first page of a range back. */
  lemma UnmapFirst(s: Space, p: nat, end: nat)
    requires Proper(s) && p < end && p !in s.pages
    ensures var t := MapPages(s, Range(p, end));
            MapPages(s, Range(p + 1, end)) ==
            Space(t.pages - {p}, WithoutPage(t.mem, p), t.writable - {p}, t.executable - {p})
  {
    var t := MapPages(s, Range(p, end));
    NothingThere(s, p);
    assert Range(p, end) == Range(p + 1, end) + {p};
    assert t.pages - {p} == s.pages + Range(p + 1, end);
    assert t.writable - {p} == s.writable + (Range(p + 1, end) - s.pages);
  }

  lemma UnmapSkips(s: Space, p: nat, end: nat)
    requires p < end && p in s.pages
    ensures MapPages(s, Range(p + 1, end)) == MapPages(s, Range(p, end))
  {
    assert Range(p, end) == Range(p + 1, end) + {p};
  }

  lemma {:induction false} PutProper(mem: map<nat, byte>, va: nat, bytes: seq<byte>, pages: set<nat>)
    requires forall a | a in mem :: a / 4096 in pages
    requires forall a | va <= a < va + |bytes| :: a / 4096 in pages
    ensures forall a | a in Put(mem, va, bytes) :: a / 4096 in pages
  {
    forall a | a in Put(mem, va, bytes) ensures a / 4096 in pages {
      PutAt(mem, va, bytes, a);
    }
  }

  /** Mapping a range: its pages are there afterwards; those that were not before read as zero, can be written and not
      executed; every other page is as it was. */
  lemma MapAnswer(s: Space, va: nat, size: nat, p: nat)
    requires Proper(s)
    ensures var t := MapRange(s, va, size); var blank := p in PagesOf(va, size) && p !in s.pages;
            && Proper(t) && (p in t.pages <==> p in s.pages || p in PagesOf(va, size))
            && (blank ==> p in t.writable && p !in t.executable && forall a: nat | a / 4096 == p :: At(t, a) == 0)
            && (!blank ==> (p in t.writable <==> p in s.writable) && (p in t.executable <==> p in s.executable))
            && (forall a: nat | a / 4096 == p :: At(t, a) == At(s, a))
  {
    MapProper(s, PagesOf(va, size));
  }

  /** A user address space: the pages of a page table. The operations go page by page; those that meet a page that is
      not mapped stop there, and leave what they have done. */
  class AddressSpace {
    var space: Space
    var pending: set<nat>    // pages that a mapping in progress has added

    ghost predicate Valid()
      reads this
    {
      Proper(space) && pending == {}
    }

    constructor (space: Space)
      requires Proper(space)
      ensures Valid() && this.space == space
    {
      this.space, pending := space, {};
    }

    /** A fresh page: zero bytes, writable, not executable. */
    method AddPage(p: nat)
      modifies this
      ensures space == Space(old(space).pages + {p}, WithoutPage(old(space).mem, p), old(space).writable + {p},
                             old(space).executable - {p})
      ensures pending == old(pending) + {p}
    {
      space := Space(space.pages + {p}, WithoutPage(space.mem, p), space.writable + {p}, space.executable - {p});
      pending := pending + {p};
    }

    /** Take back the pages that a mapping from `first` up to `end` has added. */
    method Rollback(first: nat, end: nat, ghost before: Space)
      requires Proper(before) && first <= end && space == MapPages(before, Range(first, end))
      requires pending == Range(first, end) - before.pages
      modifies this
      ensures Valid() && space == before
    {
      for p := first to end
        invariant space == MapPages(before, Range(p, end)) && pending == Range(p, end) - before.pages
      {
        if p in pending {
          UnmapFirst(before, p, end);
          space := Space(space.pages - {p}, WithoutPage(space.mem, p), space.writable - {p}, space.executable - {p});
          pending := pending - {p};
        } else {
          UnmapSkips(before, p, end);
        }
      }
      assert MapPages(before, Range(end, end)) == before;
    }

    /** Map the pages of a range that are not there yet; `grant(p)` says whether memory can be had for page p. Either
        all of them can be mapped, or none is. */
    method MapUserRange(va: nat, size: nat, grant: nat -> bool) returns (ok: bool)
      requires Valid()
      modifies this
      ensures Valid()
      ensures ok <==> Bounds(va, size) && Granted(grant, PagesOf(va, size) - old(space).pages)
      ensures space == if ok then MapRange(old(space), va, size) else old(space)
    {
      if !Bounds(va, size) {
        return false;
      }
      ghost var before := space;
      var first, end := va / 4096, (va + size + 4095) / 4096;
      assert PagesOf(va, size) == Range(first, end);
      assert MapPages(before, Range(first, first)) == before;
      for p := first to end
        invariant space == MapPages(before, Range(first, p)) && pending == Range(first, p) - before.pages
        invariant Granted(grant, Range(first, p) - before.pages)
      {
        if p in space.pages {
          MapSkips(before, first, p);
        } else if !grant(p) {
          Rollback(first, p, before);
          return false;
        } else {
          MapNext(before, first, p);
          MapProper(before, Range(first, p));
          NothingThere(space, p);
          AddPage(p);
        }
      }
      MapProper(before, Range(first, end));
      for p := first to end
        invariant pending == Range(p, end) - before.pages && space == MapPages(before, Range(first, end))
      {
        pending := pending - {p};
      }
      ok := true;
    }

    /** Set or clear a flag of the pages of a range. */
    method SetUserFlag(va: nat, size: nat, flag: Flag, on: bool) returns (ok: bool)
      requires Valid()
      modifies this`space
      ensures Valid() && (ok <==> Bounds(va, size) && PagesOf(va, size) <= old(space).pages)
      ensures space == if Bounds(va, size) then WithFlag(old(space), Reached(old(space).pages, va, size), flag, on)
                       else old(space)
    {
      if !Bounds(va, size) {
        return false;
      }
      ghost var before := space;
      var cur, last := va / 4096, (va + size - 1) / 4096;
      assert WithFlag(before, Range(cur, cur), flag, on) == before;
      while true
        invariant va / 4096 <= cur <= last && Range(va / 4096, cur) <= before.pages
        invariant space == WithFlag(before, Range(va / 4096, cur), flag, on)
        decreases last - cur
      {
        if cur !in space.pages {
          assert cur in PagesOf(va, size);
          assert Reached(before.pages, va, size) == Range(va / 4096, cur);
          return false;
        }
        FlagNext(before, va / 4096, cur, flag, on);
        space := WithFlag(space, {cur}, flag, on);
        if cur == last {
          break;
        }
        cur := cur + 1;
      }
      assert PagesOf(va, size) == Range(va / 4096, last + 1);
      ReachedAll(before.pages, va, size);
      ok := true;
    }

    method SetWritable(va: nat, size: nat, on: bool) returns (ok: bool)
      requires Valid()
      modifies this`space
      ensures Valid() && (ok <==> Bounds(va, size) && PagesOf(va, size) <= old(space).pages)
      ensures space == if Bounds(va, size) then WithFlag(old(space), Reached(old(space).pages, va, size), RW, on)
                       else old(space)
    {
      ok := SetUserFlag(va, size, RW, on);
    }

    method SetExecutable(va: nat, size: nat, on: bool) returns (ok: bool)
      requires Valid()
      modifies this`space
      ensures Valid() && (ok <==> Bounds(va, size) && PagesOf(va, size) <= old(space).pages)
      ensures space == if Bounds(va, size) then WithFlag(old(space), Reached(old(space).pages, va, size), NX, !on)
                       else old(space)
    {
      ok := SetUserFlag(va, size, NX, !on);
    }

    /** Bytes inside one page that is mapped. */
    method StoreInPage(va: nat, bytes: seq<byte>)
      requires Valid() && va / 4096 in space.pages && va % 4096 + |bytes| <= 4096
      modifies this`space
      ensures Valid() && space == Store(old(space), va, bytes)
    {
      ghost var before := space;
      for i := 0 to |bytes|
        invariant space == Store(before, va, bytes[..i])
      {
        assert bytes[..i + 1] == bytes[..i] + [bytes[i]];
        space := space.(mem := space.mem[va + i := bytes[i]]);
      }
      assert bytes[..|bytes|] == bytes;
      PutProper(before.mem, va, bytes, before.pages);
    }

    /** Copy bytes to a range, page by page. */
    method CopyToUser(va: nat, bytes: seq<byte>) returns (ok: bool)
      requires Valid()
      modifies this`space
      ensures Valid() && (ok <==> |bytes| == 0 || (Bounds(va, |bytes|) && PagesOf(va, |bytes|) <= old(space).pages))
      ensures space == if Bounds(va, |bytes|) then Store(old(space), va, bytes[..Extent(old(space).pages, va, |bytes|)])
                       else old(space)
    {
      if !Bounds(va, |bytes|) {
        return |bytes| == 0;
      }
      ghost var before := space;
      var done := 0;
      StoreNothing(before, va);
      while done < |bytes|
        invariant Valid() && done <= |bytes| && space == Store(before, va, bytes[..done])
        invariant forall a | va <= a < va + done :: a / 4096 in before.pages
        decreases |bytes| - done
      {
        var cur := va + done;
        if cur / 4096 !in space.pages {
          ExtentIs(before.pages, va, |bytes|, done);
          ExtentWhole(before.pages, va, |bytes|);
          return false;
        }
        var chunk := 4096 - cur % 4096;
        if chunk > |bytes| - done {
          chunk := |bytes| - done;
        }
        StoreInPage(cur, bytes[done..done + chunk]);
        NextChunk(before, va, bytes, done, chunk);
        done := done + chunk;
      }
      ExtentIs(before.pages, va, |bytes|, |bytes|);
      ExtentWhole(before.pages, va, |bytes|);
      ok := true;
    }

    /** Zero a range, page by page. */
    method ZeroUser(va: nat, size: nat) returns (ok: bool)
      requires Valid()
      modifies this`space
      ensures Valid() && (ok <==> size == 0 || (Bounds(va, size) && PagesOf(va, size) <= old(space).pages))
      ensures space == if Bounds(va, size) then Store(old(space), va, Zeros(Extent(old(space).pages, va, size)))
                       else old(space)
    {
      if !Bounds(va, size) {
        return size == 0;
      }
      ghost var before := space;
      var done := 0;
      StoreNothing(before, va);
      while done < size
        invariant Valid() && done <= size && space == Store(before, va, Zeros(done))
        invariant forall a | va <= a < va + done :: a / 4096 in before.pages
        decreases size - done
      {
        var cur := va + done;
        if cur / 4096 !in space.pages {
          ExtentIs(before.pages, va, size, done);
          ExtentWhole(before.pages, va, size);
          return false;
        }
        var chunk := 4096 - cur % 4096;
        if chunk > size - done {
          chunk := size - done;
        }
        StoreInPage(cur, Zeros(chunk));
        StoreTwice(before, va, Zeros(done), Zeros(chunk));
        assert Zeros(done) + Zeros(chunk) == Zeros(done + chunk);
        done := done + chunk;
      }
      ExtentIs(before.pages, va, size, size);
      ExtentWhole(before.pages, va, size);
      ok := true;
    }
  }
}

/** The block cache in the kernel's own form: an object whose entries are updated by loops, proved against the functions
    of module BlockCache. */
module BlockCacheKernel {
  import opened Common
  import opened BlockCache
  import opened BlockCacheUse

  class Cache {
    var entries: seq<Entry>
    var clock: nat
    var deviceDirty: bool
    var device: seq<Data>
    var platter: seq<Data>

    ghost function View(): State
      reads this
    {
      State(entries, clock, deviceDirty, device, platter)
    }

    ghost predicate Valid()
      reads this
    {
      Inv(View())
    }

    /** An empty cache over a disk that has just been powered on. */
    constructor (disk: seq<Data>)
      ensures Valid() && device == platter == disk
      ensures forall k: nat {:trigger Logical(View(), k)} | k < |disk| :: Logical(View(), k) == Some(disk[k])
    {
      entries, clock, deviceDirty, device, platter := seq(64, k => Entry(false, false, 0, 0, [])), 1, false, disk, disk;
    }

    method FindEntry(lba: nat) returns (idx: int)
      requires |entries| == BLOCKS
      ensures idx == Find(entries, lba, 0)
    {
      for i := 0 to BLOCKS
        invariant Find(entries, lba, 0) == Find(entries, lba, i)
      {
        if entries[i].valid && entries[i].lba == lba {
          return i;
        }
      }
      return -1;
    }

    /** The victim: the first unused entry, else the one touched longest ago. */
    method PickEntry() returns (best: nat)
      requires |entries| == BLOCKS
      ensures best == Pick(entries, 0, 0) && Victim(entries, BLOCKS, best)
    {
      PickIs(entries, 0, 0);
      best := 0;
      for i := 0 to BLOCKS
        invariant best < BLOCKS && Pick(entries, 0, 0) == Pick(entries, i, best)
      {
        if !entries[i].valid {
          return i;
        }
        if entries[i].age < entries[best].age {
          best := i;
        }
      }
    }

    /** A write request to the disk. */
    method DiskWrite(lba: nat, data: seq<Data>, fate: Fate) returns (ok: bool)
      requires Shaped(View())
      modifies this`device, this`platter
      ensures View() == AtaWrite(old(View()), lba, data, fate).0 && ok == AtaWrite(old(View()), lba, data, fate).1
    {
      if |data| == 0 || lba > 0x0FFF_FFFF - (|data| - 1) || lba + |data| > |device| {
        return false;
      }
      device := Store(device, lba, if fate.ok then data else data[..Min(fate.prefix, |data|)]);
      platter := Destage(platter, device, fate.destaged);
      ok := fate.ok;
    }

    method FlushOne(idx: nat, fate: Fate) returns (ok: bool)
      requires Valid() && idx < BLOCKS
      modifies this
      ensures Valid() && View() == FlushEntry(old(View()), idx, fate).0 && ok == FlushEntry(old(View()), idx, fate).1
    {
      FlushEntryKeeps(View(), idx, fate);
      if !entries[idx].valid || !entries[idx].dirty {
        return true;
      }
      ok := DiskWrite(entries[idx].lba, [entries[idx].data], fate);
      if ok {
        entries := entries[idx := entries[idx].(dirty := false)];
        deviceDirty := true;
      }
    }

    method TickClock() returns (now: nat)
      modifies this`clock
      ensures clock == now == Tick(old(clock))
    {
      clock := (clock + 1) % 0x1_0000_0000;
      now := clock;
    }

    /** Read a sector.  What it returns is what users see there, and users see nothing change. */
    method BlockReadSector(lba: nat, flush: Fate, read: Fate) returns (ok: bool, buf: Data)
      requires Valid() && lba < 0x1_0000_0000
      modifies this
      ensures Valid() && SameLogical(old(View()), View()) && View() == Read(old(View()), lba, flush, read).0
      ensures (if ok then Some(buf) else None) == Read(old(View()), lba, flush, read).1
      ensures ok ==> Logical(old(View()), lba) == Some(buf) && Cached(View(), lba)
      ensures !ok <==> !Cached(old(View()), lba)
                       && (VictimStuck(old(View()), flush) || !Reachable(old(View()), lba) || !read.ok)
    {
      ReadKeeps(View(), lba, flush, read);
      ReadFails(View(), lba, flush, read);
      buf := [];
      var idx := FindEntry(lba);
      if idx >= 0 {
        var now := TickClock();
        entries := entries[idx := entries[idx].(age := now)];
        return true, entries[idx].data;
      }
      idx := PickEntry();
      ok := FlushOne(idx, flush);
      if !ok {
        return;
      }
      ok, buf := LoadSector(lba, idx, read);
    }

    /** Read a sector from the disk into an entry. */
    method LoadSector(lba: nat, idx: nat, read: Fate) returns (ok: bool, buf: Data)
      requires Shaped(View()) && idx < BLOCKS
      modifies this`entries, this`clock
      ensures (if ok then Some(buf) else None) == AtaRead(old(View()), lba, read)
      ensures View() == if ok then Fill(old(View()), idx, false, lba, buf) else old(View())
    {
      buf := [];
      if lba >= |device| || lba > 0x0FFF_FFFF || !read.ok {
        return false, buf;
      }
      buf := device[lba];
      var now := TickClock();
      entries := entries[idx := Entry(true, false, lba, now, buf)];
      ok := true;
    }

    /** Write a sector. On success users see the new value there and nothing else change; on failure nothing changes. */
    method BlockWriteSector(lba: nat, buf: Data, flush: Fate) returns (ok: bool)
      requires Valid() && lba < 0x1_0000_0000
      modifies this
      ensures Valid() && View() == Write(old(View()), lba, buf, flush).0 && ok == Write(old(View()), lba, buf, flush).1
      ensures forall k: nat {:trigger Logical(View(), k)} ::
                Logical(View(), k) == if ok && k == lba then Some(buf) else Logical(old(View()), k)
      ensures !ok <==> !Cached(old(View()), lba) && VictimStuck(old(View()), flush)
    {
      WriteKeeps(View(), lba, buf, flush);
      WriteFails(View(), lba, buf, flush);
      var idx := FindEntry(lba);
      if idx < 0 {
        idx := PickEntry();
        ok := FlushOne(idx, flush);
        if !ok {
          return;
        }
      }
      var now := TickClock();
      entries := entries[idx := Entry(true, true, lba, now, buf)];
      ok := true;
    }

    method LowestDirty() returns (first: int)
      requires |entries| == BLOCKS
      ensures first == Lowest(entries, 0, -1) && LowestOf(entries, BLOCKS, first)
    {
      LowestIs(entries, 0, -1);
      first := -1;
      for i := 0 to BLOCKS
        invariant -1 <= first < BLOCKS && Lowest(entries, 0, -1) == Lowest(entries, i, first)
      {
        if entries[i].valid && entries[i].dirty && (first < 0 || entries[i].lba < entries[first].lba) {
          first := i;
        }
      }
    }

    /** Gather up to a batch of consecutive dirty sectors: the entries that hold them and their data. */
    method Gather(start: nat) returns (held: seq<nat>, data: seq<Data>)
      requires |entries| == BLOCKS
      ensures |held| == BatchLen(entries, start, 0) && data == BatchData(entries, start, |held|)
      ensures forall k | 0 <= k < |held| :: held[k] == Next(entries, start, k)
    {
      held, data := [], [];
      while |held| < BATCH
        invariant |data| == |held| <= BATCH && BatchLen(entries, start, 0) == BatchLen(entries, start, |held|)
        invariant forall k | 0 <= k < |held| :: held[k] == Next(entries, start, k) && data[k] == entries[held[k]].data
        decreases BATCH - |held|
      {
        var idx := FindEntry((start + |held|) % 0x1_0000_0000);
        if idx < 0 || !entries[idx].dirty {
          return;
        }
        held, data := held + [idx], data + [entries[idx].data];
      }
    }

    /** Write everything back.  Users see nothing change; a return of 0 means that the platter holds, at every sector,
        what users see. */
    method BlockCacheFlush(fates: nat -> Fate) returns (ret: int)
      requires Valid()
      modifies this
      ensures Valid() && SameLogical(old(View()), View()) && (ret == 0 || ret == -1)
      ensures View() == Flush(old(View()), fates, 0).0 && (ret == 0 <==> Flush(old(View()), fates, 0).1)
      ensures ret == 0 ==> Durable(View()) && DirtyReachable(old(View()))
      ensures (forall j: nat :: fates(j).ok) && DirtyReachable(old(View())) ==> ret == 0
    {
      FlushKeeps(View(), fates, 0);
      FlushAnswer(View(), fates, 0);
      var ok, i := FlushBatches(fates);
      if !ok {
        return -1;
      }
      ret := 0;
      if deviceDirty {
        ret := FlushDevice(fates(i));
      }
    }

    /** Write the dirty entries back, batch by batch, until there are none or a batch fails. */
    method FlushBatches(fates: nat -> Fate) returns (ok: bool, i: nat)
      requires Valid()
      modifies this
      ensures Valid()
      ensures if ok then Lowest(entries, 0, -1) < 0 && Flush(old(View()), fates, 0) == Flush(View(), fates, i)
              else Flush(old(View()), fates, 0) == (View(), false)
    {
      ghost var s := View();
      i := 0;
      while true
        invariant Valid() && Flush(s, fates, 0) == Flush(View(), fates, i)
        decreases DirtyCount(entries)
      {
        var first := LowestDirty();
        if first < 0 {
          return true, i;
        }
        FlushBatchKeeps(View(), fates(i));
        ok := FlushABatch(first, fates(i));
        if !ok {
          return;
        }
        i := i + 1;
      }
    }

    /** Have the disk empty its own cache. */
    method FlushDevice(fate: Fate) returns (ret: int)
      requires Shaped(View())
      modifies this`platter, this`deviceDirty
      ensures ret == if fate.ok then 0 else -1
      ensures View() == (if fate.ok then AtaFlush(old(View()), fate).0.(deviceDirty := false)
                         else AtaFlush(old(View()), fate).0)
    {
      platter := if fate.ok then device else Destage(platter, device, fate.destaged);
      if !fate.ok {
        return -1;
      }
      deviceDirty := false;
      ret := 0;
    }

    /** One batch of a flush. */
    method FlushABatch(first: nat, fate: Fate) returns (ok: bool)
      requires Valid() && first == Lowest(entries, 0, -1)
      modifies this
      ensures View() == FlushBatch(old(View()), fate).0 && ok == FlushBatch(old(View()), fate).1
    {
      var start := entries[first].lba;
      var held, batch := Gather(start);
      ok := DiskWrite(start, batch, fate);
      if ok {
        AtaOk(old(View()), start, batch, fate);
        MarkClean(held, start);
        deviceDirty := true;
      }
    }

    /** Mark the entries of a batch clean, one by one. */
    method MarkClean(held: seq<nat>, ghost start: nat)
      requires |entries| == BLOCKS && Unique(entries) && start + |held| <= 0x1_0000_0000
      requires forall k | 0 <= k < |held| :: held[k] < BLOCKS && held[k] == Next(entries, start, k)
      modifies this`entries
      ensures entries == CleanRange(old(entries), start, |held|)
    {
      ghost var was := entries;
      CleanNone(was, start);
      for i := 0 to |held|
        invariant entries == CleanRange(was, start, i)
      {
        CleanNext(was, start, i, held[i]);
        entries := entries[held[i] := entries[held[i]].(dirty := false)];
      }
    }
  }

  lemma AtaOk(s: State, lba: nat, data: seq<Data>, fate: Fate)
    requires Shaped(s) && AtaWrite(s, lba, data, fate).1
    ensures lba + |data| <= 0x1_0000_0000
  {
  }

  lemma CleanNone(entries: seq<Entry>, start: nat)
    ensures CleanRange(entries, start, 0) == entries
  {
  }

  lemma CleanNext(entries: seq<Entry>, start: nat, n: nat, i: nat)
    requires Unique(entries) && i < |entries| && start + n < 0x1_0000_0000 && i == Next(entries, start, n)
    ensures CleanRange(entries, start, n + 1) ==
            CleanRange(entries, start, n)[i := Clean(CleanRange(entries, start, n)[i])]
  {
  }
}

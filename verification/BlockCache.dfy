/** The write-back block cache over a disk with a volatile write cache of its own.

    A disk has two layers: what reads return (`device`) and what survives a power loss (`platter`).  Each request to the
    disk comes with a fate: whether it succeeds, how much of a failed write still got through, and which sectors the
    disk happens to move to the platter.  Requests outside the disk always fail. */
module BlockCache {
  import opened Common

  /** The contents of a sector. */
  type Data = seq<int>

  const BLOCKS: nat := 64
  const BATCH: nat := 8

  datatype Entry = Entry(valid: bool, dirty: bool, lba: nat, age: nat, data: Data)

  datatype Fate = Fate(ok: bool, prefix: nat, destaged: set<nat>)

  datatype State = State(entries: seq<Entry>, clock: nat, deviceDirty: bool, device: seq<Data>, platter: seq<Data>)

  // ---------------------------------------------------------------- the disk

  /** The platter after some sectors have reached it. */
  function Destage(platter: seq<Data>, device: seq<Data>, which: set<nat>): (r: seq<Data>)
    requires |platter| == |device|
    ensures |r| == |platter|
    ensures forall k | 0 <= k < |r| :: r[k] == if k in which then device[k] else platter[k]
  {
    seq(|platter|, k requires 0 <= k < |platter| => if k in which then device[k] else platter[k])
  }

  /** The device after the sectors of `data` from `lba` on have been stored. */
  function Store(device: seq<Data>, lba: nat, data: seq<Data>): (r: seq<Data>)
    requires lba + |data| <= |device|
    ensures |r| == |device|
    ensures forall k | 0 <= k < |r| :: r[k] == if lba <= k < lba + |data| then data[k - lba] else device[k]
  {
    device[..lba] + data + device[lba + |data|..]
  }

  predicate OnDisk(s: State, lba: nat, count: nat) {
    count > 0 && lba + (count - 1) <= 0x0FFF_FFFF && lba + count <= |s.device|
  }

  predicate Shaped(s: State) {
    |s.entries| == BLOCKS && |s.platter| == |s.device|
  }

  /** Write consecutive sectors; a failed write may have stored any prefix of them. */
  function AtaWrite(s: State, lba: nat, data: seq<Data>, fate: Fate): (r: (State, bool))
    requires Shaped(s)
    ensures Shaped(r.0) && r.0.entries == s.entries && r.0.deviceDirty == s.deviceDirty && |r.0.device| == |s.device|
  {
    if !OnDisk(s, lba, |data|) then (s, false)
    else
      var device := Store(s.device, lba, if fate.ok then data else data[..Min(fate.prefix, |data|)]);
      (s.(device := device, platter := Destage(s.platter, device, fate.destaged)), fate.ok)
  }

  function AtaRead(s: State, lba: nat, fate: Fate): Option<Data> {
    if OnDisk(s, lba, 1) && fate.ok then Some(s.device[lba]) else None
  }

  function AtaFlush(s: State, fate: Fate): (r: (State, bool))
    requires Shaped(s)
    ensures Shaped(r.0) && r.0.entries == s.entries && r.0.device == s.device && r.0.deviceDirty == s.deviceDirty
  {
    (s.(platter := if fate.ok then s.device else Destage(s.platter, s.device, fate.destaged)), fate.ok)
  }

  // ---------------------------------------------------------------- the cache

  /** The first entry from i on that holds a sector, or -1. */
  function Find(entries: seq<Entry>, lba: nat, i: nat): (r: int)
    requires i <= |entries|
    ensures -1 <= r < |entries|
    ensures r >= 0 ==> i <= r && entries[r].valid && entries[r].lba == lba
    ensures r < 0 ==> forall k | i <= k < |entries| :: !(entries[k].valid && entries[k].lba == lba)
    decreases |entries| - i
  {
    if i == |entries| then -1
    else if entries[i].valid && entries[i].lba == lba then i
    else Find(entries, lba, i + 1)
  }

  /** The victim: the first unused entry, else the one touched longest ago. */
  function Pick(entries: seq<Entry>, i: nat, best: nat): (r: nat)
    requires i <= |entries| && best < |entries|
    ensures r < |entries|
    decreases |entries| - i
  {
    if i == |entries| then best
    else if !entries[i].valid then i
    else Pick(entries, i + 1, if entries[i].age < entries[best].age then i else best)
  }

  /** The first unused entry, or when all are used one touched no later than any other, and the first of those. */
  ghost predicate Victim(entries: seq<Entry>, n: nat, r: nat)
    requires n <= |entries| && r < |entries|
  {
    if !entries[r].valid then forall k | 0 <= k < r :: entries[k].valid
    else forall k | 0 <= k < n :: entries[k].valid && entries[r].age <= entries[k].age
                                  && (k < r ==> entries[r].age < entries[k].age)
  }

  lemma {:induction false} PickIs(entries: seq<Entry>, i: nat, best: nat)
    requires i <= |entries| && best < |entries| && (best < i || best == i == 0)
    requires forall k | 0 <= k < i :: entries[k].valid && entries[best].age <= entries[k].age
                                      && (k < best ==> entries[best].age < entries[k].age)
    ensures Victim(entries, |entries|, Pick(entries, i, best))
    decreases |entries| - i
  {
    if i < |entries| && entries[i].valid {
      PickIs(entries, i + 1, if entries[i].age < entries[best].age then i else best);
    }
  }

  function Tick(clock: nat): nat {
    (clock + 1) % 0x1_0000_0000
  }

  function Clean(e: Entry): Entry {
    e.(dirty := false)
  }

  /** Write one entry back if it needs it. */
  function FlushEntry(s: State, i: nat, fate: Fate): (r: (State, bool))
    requires Shaped(s) && i < BLOCKS
    ensures Shaped(r.0)
  {
    var e := s.entries[i];
    if !e.valid || !e.dirty then (s, true)
    else
      var w := AtaWrite(s, e.lba, [e.data], fate);
      if !w.1 then (w.0, false)
      else (w.0.(entries := w.0.entries[i := Clean(e)], deviceDirty := true), true)
  }

  function Fill(s: State, i: nat, dirty: bool, lba: nat, data: Data): (r: State)
    requires Shaped(s) && i < BLOCKS
    ensures Shaped(r)
  {
    s.(entries := s.entries[i := Entry(true, dirty, lba, Tick(s.clock), data)], clock := Tick(s.clock))
  }

  /** Read a sector; None when the disk fails. */
  function Read(s: State, lba: nat, flush: Fate, read: Fate): (r: (State, Option<Data>))
    requires Shaped(s)
    ensures Shaped(r.0)
  {
    var hit := Find(s.entries, lba, 0);
    if hit >= 0 then
      (s.(entries := s.entries[hit := s.entries[hit].(age := Tick(s.clock))], clock := Tick(s.clock)),
       Some(s.entries[hit].data))
    else
      var i := Pick(s.entries, 0, 0);
      var f := FlushEntry(s, i, flush);
      if !f.1 || AtaRead(f.0, lba, read).None? then (f.0, None)
      else (Fill(f.0, i, false, lba, AtaRead(f.0, lba, read).value), AtaRead(f.0, lba, read))
  }

  /** Write a sector into the cache; fails when the victim cannot be written back. */
  function Write(s: State, lba: nat, data: Data, flush: Fate): (r: (State, bool))
    requires Shaped(s)
    ensures Shaped(r.0)
  {
    var hit := Find(s.entries, lba, 0);
    if hit >= 0 then (Fill(s, hit, true, lba, data), true)
    else
      var i := Pick(s.entries, 0, 0);
      var f := FlushEntry(s, i, flush);
      if !f.1 then (f.0, false) else (Fill(f.0, i, true, lba, data), true)
  }

  // ---------------------------------------------------------------- flushing

  /** The dirty entry with the lowest sector number among those from i on, or `first`. */
  function Lowest(entries: seq<Entry>, i: nat, first: int): (r: int)
    requires i <= |entries| && -1 <= first < |entries|
    ensures -1 <= r < |entries|
    decreases |entries| - i
  {
    if i == |entries| then first
    else if !entries[i].valid || !entries[i].dirty then Lowest(entries, i + 1, first)
    else if first < 0 || entries[i].lba < entries[first].lba then Lowest(entries, i + 1, i)
    else Lowest(entries, i + 1, first)
  }

  /** The entry that holds the n-th sector after `start`; sector numbers have 32 bits. */
  function Next(entries: seq<Entry>, start: nat, n: nat): int {
    Find(entries, (start + n) % 0x1_0000_0000, 0)
  }

  /** How many dirty sectors in a row there are, at most a batch. */
  function BatchLen(entries: seq<Entry>, start: nat, n: nat): (r: nat)
    requires n <= BATCH
    ensures n <= r <= BATCH
    ensures forall k | n <= k < r :: Next(entries, start, k) >= 0 && entries[Next(entries, start, k)].dirty
    decreases BATCH - n
  {
    if n == BATCH || Next(entries, start, n) < 0 || !entries[Next(entries, start, n)].dirty then n
    else BatchLen(entries, start, n + 1)
  }

  function BatchData(entries: seq<Entry>, start: nat, n: nat): (d: seq<Data>)
    requires forall k | 0 <= k < n :: Next(entries, start, k) >= 0
    ensures |d| == n
    ensures forall k | 0 <= k < n :: d[k] == entries[Next(entries, start, k)].data
  {
    seq(n, k requires 0 <= k < n => entries[Next(entries, start, k)].data)
  }

  /** The entries after those in a range of sectors have been marked clean. */
  function CleanRange(entries: seq<Entry>, start: nat, n: nat): (r: seq<Entry>)
    ensures |r| == |entries|
    ensures forall k | 0 <= k < |r| :: r[k] ==
              if entries[k].valid && start <= entries[k].lba < start + n then Clean(entries[k]) else entries[k]
  {
    seq(|entries|, k requires 0 <= k < |entries| =>
      if entries[k].valid && start <= entries[k].lba < start + n then Clean(entries[k]) else entries[k])
  }

  function DirtyCount(entries: seq<Entry>): nat {
    if entries == [] then 0
    else DirtyCount(entries[..|entries| - 1])
         + (if entries[|entries| - 1].valid && entries[|entries| - 1].dirty then 1 else 0)
  }

  /** One batch of a flush, from the lowest dirty entry on. */
  function FlushBatch(s: State, fate: Fate): (r: (State, bool))
    requires Shaped(s) && Lowest(s.entries, 0, -1) >= 0
    ensures Shaped(r.0)
  {
    var start := s.entries[Lowest(s.entries, 0, -1)].lba;
    var n := BatchLen(s.entries, start, 0);
    var w := AtaWrite(s, start, BatchData(s.entries, start, n), fate);
    if !w.1 then (w.0, false)
    else (w.0.(entries := CleanRange(s.entries, start, n), deviceDirty := true), true)
  }

  // ---------------------------------------------------------------- the invariant

  /** No sector is cached twice. */
  ghost predicate Unique(entries: seq<Entry>) {
    forall i, j | 0 <= i < j < |entries| && entries[i].valid && entries[j].valid :: entries[i].lba != entries[j].lba
  }

  ghost predicate DirtyAt(entries: seq<Entry>, lba: nat) {
    exists i :: 0 <= i < |entries| && entries[i].valid && entries[i].dirty && entries[i].lba == lba
  }

  ghost predicate Inv(s: State) {
    && Shaped(s) && Unique(s.entries)
    && (forall i | 0 <= i < BLOCKS && s.entries[i].valid ::
          s.entries[i].lba < 0x1_0000_0000
          && (!s.entries[i].dirty ==> s.entries[i].lba < |s.device| && s.entries[i].data == s.device[s.entries[i].lba]))
    && (forall k | 0 <= k < |s.device| && s.platter[k] != s.device[k] :: s.deviceDirty || DirtyAt(s.entries, k))
  }

  /** The contents that users of the cache see; None off the end of the disk. */
  function Logical(s: State, lba: nat): Option<Data>
    requires Shaped(s)
  {
    var i := Find(s.entries, lba, 0);
    if i >= 0 then Some(s.entries[i].data) else if lba < |s.device| then Some(s.device[lba]) else None
  }

  ghost predicate SameLogical(s: State, s': State)
    requires Shaped(s) && Shaped(s')
  {
    forall k: nat {:trigger Logical(s', k)} :: Logical(s', k) == Logical(s, k)
  }

  lemma FindUnique(entries: seq<Entry>, lba: nat, i: nat)
    requires Unique(entries) && i < |entries| && entries[i].valid && entries[i].lba == lba
    ensures Find(entries, lba, 0) == i
  {
  }

  /** What users see at a sector, said without a search. */
  lemma LogicalIs(s: State, lba: nat)
    requires Shaped(s) && Unique(s.entries)
    ensures forall i | 0 <= i < BLOCKS && s.entries[i].valid && s.entries[i].lba == lba ::
              Logical(s, lba) == Some(s.entries[i].data)
    ensures (forall i | 0 <= i < BLOCKS && s.entries[i].valid :: s.entries[i].lba != lba) ==>
              Logical(s, lba) == if lba < |s.device| then Some(s.device[lba]) else None
  {
    forall i | 0 <= i < BLOCKS && s.entries[i].valid && s.entries[i].lba == lba
      ensures Logical(s, lba) == Some(s.entries[i].data)
    {
      FindUnique(s.entries, lba, i);
    }
  }

  // ---------------------------------------------------------------- writing back

  /** A write of dirty cached sectors, whatever its fate, changes nothing that users see and keeps the invariant:
      sectors it may have stored are still dirty in the cache. */
  lemma AtaWriteKeeps(s: State, lba: nat, data: seq<Data>, fate: Fate)
    requires Inv(s)
    requires forall k | lba <= k < lba + |data| :: DirtyAt(s.entries, k)
    ensures Inv(AtaWrite(s, lba, data, fate).0) && SameLogical(s, AtaWrite(s, lba, data, fate).0)
  {
    var s' := AtaWrite(s, lba, data, fate).0;
    forall k | 0 <= k < |s.device| && s'.device[k] != s.device[k] ensures DirtyAt(s.entries, k) {
    }
    forall i | 0 <= i < BLOCKS && s.entries[i].valid && !s.entries[i].dirty
      ensures s'.device[s.entries[i].lba] == s.device[s.entries[i].lba]
    {
      NotBoth(s.entries, i);
    }
    forall k: nat ensures Logical(s', k) == Logical(s, k) {
    }
  }

  /** A sector with a clean entry has no dirty one. */
  lemma NotBoth(entries: seq<Entry>, i: nat)
    requires Unique(entries) && i < |entries| && entries[i].valid && !entries[i].dirty
    ensures !DirtyAt(entries, entries[i].lba)
  {
  }

  lemma FlushEntryKeeps(s: State, i: nat, fate: Fate)
    requires Inv(s) && i < BLOCKS
    ensures var r := FlushEntry(s, i, fate);
            && Inv(r.0) && SameLogical(s, r.0) && |r.0.device| == |s.device|
            && (forall k | 0 <= k < BLOCKS ::
              r.0.entries[k] == s.entries[k] || (k == i && r.0.entries[k] == Clean(s.entries[k])))
            && (r.1 ==> !r.0.entries[i].valid || !r.0.entries[i].dirty)
  {
    var e := s.entries[i];
    if e.valid && e.dirty {
      AtaWriteKeeps(s, e.lba, [e.data], fate);
      var w := AtaWrite(s, e.lba, [e.data], fate);
      if w.1 {
        CleanOne(w.0, i);
      }
    }
  }

  /** An entry that agrees with the device may be marked clean. */
  lemma CleanOne(s: State, i: nat)
    requires Inv(s) && i < BLOCKS && s.entries[i].valid && s.entries[i].lba < |s.device|
    requires s.device[s.entries[i].lba] == s.entries[i].data
    ensures var s' := s.(entries := s.entries[i := Clean(s.entries[i])], deviceDirty := true);
            Inv(s') && SameLogical(s, s')
  {
    var s' := s.(entries := s.entries[i := Clean(s.entries[i])], deviceDirty := true);
    forall k: nat ensures Logical(s', k) == Logical(s, k) {
      LogicalIs(s, k);
      LogicalIs(s', k);
      if forall j | 0 <= j < BLOCKS && s.entries[j].valid :: s.entries[j].lba != k {
      } else {
        var j :| 0 <= j < BLOCKS && s.entries[j].valid && s.entries[j].lba == k;
        assert s'.entries[j].valid && s'.entries[j].lba == k && s'.entries[j].data == s.entries[j].data;
      }
    }
  }

  // ---------------------------------------------------------------- reading and writing

  /** Entry i may be given to a sector that no other entry holds, as long as nothing unsaved is lost with it. */
  lemma FillKeeps(s: State, i: nat, dirty: bool, lba: nat, data: Data)
    requires Inv(s) && i < BLOCKS && lba < 0x1_0000_0000
    requires forall j | 0 <= j < BLOCKS && j != i && s.entries[j].valid :: s.entries[j].lba != lba
    requires s.entries[i].valid && s.entries[i].dirty ==> s.entries[i].lba == lba && dirty
    requires !dirty ==> lba < |s.device| && s.device[lba] == data
    ensures var s' := Fill(s, i, dirty, lba, data);
            && Inv(s') && Logical(s', lba) == Some(data)
            && forall k: nat {:trigger Logical(s', k)} | k != lba :: Logical(s', k) == Logical(s, k)
  {
    var s' := Fill(s, i, dirty, lba, data);
    assert Unique(s'.entries);
    forall k | 0 <= k < |s.device| && s.platter[k] != s.device[k]
      ensures s.deviceDirty || DirtyAt(s'.entries, k)
    {
      if DirtyAt(s.entries, k) {
        var j :| 0 <= j < BLOCKS && s.entries[j].valid && s.entries[j].dirty && s.entries[j].lba == k;
        assert s'.entries[j].valid && s'.entries[j].dirty && s'.entries[j].lba == k;
      }
    }
    FindUnique(s'.entries, lba, i);
    forall k: nat | k != lba ensures Logical(s', k) == Logical(s, k) {
      FillOther(s, i, dirty, lba, data, k);
    }
  }

  lemma FillOther(s: State, i: nat, dirty: bool, lba: nat, data: Data, k: nat)
    requires Inv(s) && i < BLOCKS && k != lba && Unique(Fill(s, i, dirty, lba, data).entries)
    requires s.entries[i].valid && s.entries[i].dirty ==> s.entries[i].lba == lba && dirty
    ensures Logical(Fill(s, i, dirty, lba, data), k) == Logical(s, k)
  {
    var s' := Fill(s, i, dirty, lba, data);
    LogicalIs(s, k);
    LogicalIs(s', k);
    if j :| 0 <= j < BLOCKS && s.entries[j].valid && s.entries[j].lba == k {
      if j != i {
        assert s'.entries[j] == s.entries[j];
      } else {
        assert forall m | 0 <= m < BLOCKS && s'.entries[m].valid :: s'.entries[m].lba != k;
      }
    } else {
      assert forall m | 0 <= m < BLOCKS && s'.entries[m].valid :: s'.entries[m].lba != k;
    }
  }

  /** Only its age changes. */
  lemma TouchKeeps(s: State, i: nat)
    requires Inv(s) && i < BLOCKS
    ensures var s' := s.(entries := s.entries[i := s.entries[i].(age := Tick(s.clock))], clock := Tick(s.clock));
            Inv(s') && SameLogical(s, s')
  {
    var s' := s.(entries := s.entries[i := s.entries[i].(age := Tick(s.clock))], clock := Tick(s.clock));
    forall k | 0 <= k < |s.device| && DirtyAt(s.entries, k) ensures DirtyAt(s'.entries, k) {
      var j :| 0 <= j < BLOCKS && s.entries[j].valid && s.entries[j].dirty && s.entries[j].lba == k;
      assert s'.entries[j].valid && s'.entries[j].dirty && s'.entries[j].lba == k;
    }
    forall k: nat ensures Logical(s', k) == Logical(s, k) {
      LogicalIs(s, k);
      LogicalIs(s', k);
      if j :| 0 <= j < BLOCKS && s.entries[j].valid && s.entries[j].lba == k {
        assert s'.entries[j].valid && s'.entries[j].lba == k && s'.entries[j].data == s.entries[j].data;
      }
    }
  }

  /** A read changes nothing that users see, and what it returns is what they see. */
  lemma ReadKeeps(s: State, lba: nat, flush: Fate, read: Fate)
    requires Inv(s) && lba < 0x1_0000_0000
    ensures var r := Read(s, lba, flush, read);
            Inv(r.0) && SameLogical(s, r.0) && |r.0.device| == |s.device| && (r.1.Some? ==> r.1 == Logical(s, lba))
  {
    var hit := Find(s.entries, lba, 0);
    if hit >= 0 {
      TouchKeeps(s, hit);
    } else {
      var i := Pick(s.entries, 0, 0);
      var f := FlushEntry(s, i, flush);
      FlushEntryKeeps(s, i, flush);
      if f.1 && AtaRead(f.0, lba, read).Some? {
        StillAbsent(s.entries, f.0.entries, i, lba);
        FillKeeps(f.0, i, false, lba, AtaRead(f.0, lba, read).value);
        assert Logical(f.0, lba) == Logical(s, lba);
      }
    }
  }

  lemma StillAbsent(entries: seq<Entry>, entries': seq<Entry>, i: nat, lba: nat)
    requires |entries| == |entries'| && i < |entries| && Find(entries, lba, 0) < 0
    requires forall k | 0 <= k < |entries| :: entries'[k] == entries[k] || (k == i && entries'[k] == Clean(entries[k]))
    ensures Find(entries', lba, 0) < 0
    ensures forall j | 0 <= j < |entries| && entries'[j].valid :: entries'[j].lba != lba
  {
  }

  /** A write that succeeds changes what users see at that sector and nowhere else; one that fails changes nothing. */
  lemma WriteKeeps(s: State, lba: nat, data: Data, flush: Fate)
    requires Inv(s) && lba < 0x1_0000_0000
    ensures var r := Write(s, lba, data, flush);
            && Inv(r.0) && |r.0.device| == |s.device|
            && forall k: nat {:trigger Logical(r.0, k)} ::
                 Logical(r.0, k) == if r.1 && k == lba then Some(data) else Logical(s, k)
  {
    var hit := Find(s.entries, lba, 0);
    if hit >= 0 {
      FillKeeps(s, hit, true, lba, data);
    } else {
      var i := Pick(s.entries, 0, 0);
      var f := FlushEntry(s, i, flush);
      FlushEntryKeeps(s, i, flush);
      if f.1 {
        StillAbsent(s.entries, f.0.entries, i, lba);
        FillKeeps(f.0, i, true, lba, data);
      }
    }
  }

  // ---------------------------------------------------------------- flushing

  predicate IsDirty(e: Entry) {
    e.valid && e.dirty
  }

  /** No dirty entry has a lower sector number than this dirty one; -1 if none is dirty. */
  ghost predicate LowestOf(entries: seq<Entry>, n: nat, r: int)
    requires n <= |entries|
  {
    if r < 0 then forall k | 0 <= k < n :: !IsDirty(entries[k])
    else r < |entries| && IsDirty(entries[r]) && forall k | 0 <= k < n && IsDirty(entries[k]) ::
      entries[r].lba <= entries[k].lba
  }

  /** The search finds a dirty entry if there is one, and then the one with the lowest sector number. */
  lemma {:induction false} LowestIs(entries: seq<Entry>, i: nat, first: int)
    requires i <= |entries| && -1 <= first < |entries| && LowestOf(entries, i, first)
    ensures LowestOf(entries, |entries|, Lowest(entries, i, first))
    decreases |entries| - i
  {
    if i < |entries| {
      LowestIs(entries, i + 1,
               if IsDirty(entries[i]) && (first < 0 || entries[i].lba < entries[first].lba) then i else first);
    }
  }

  lemma {:induction false} DirtyCountLess(entries: seq<Entry>, start: nat, n: nat, i: nat)
    requires i < |entries| && entries[i].valid && entries[i].dirty && start <= entries[i].lba < start + n
    ensures DirtyCount(CleanRange(entries, start, n)) < DirtyCount(entries)
    decreases |entries|
  {
    var init := entries[..|entries| - 1];
    assert CleanRange(entries, start, n)[..|entries| - 1] == CleanRange(init, start, n);
    if i < |entries| - 1 {
      DirtyCountLess(init, start, n, i);
    } else {
      DirtyCountNoMore(init, start, n);
    }
  }

  lemma {:induction false} DirtyCountNoMore(entries: seq<Entry>, start: nat, n: nat)
    ensures DirtyCount(CleanRange(entries, start, n)) <= DirtyCount(entries)
    decreases |entries|
  {
    if entries != [] {
      var init := entries[..|entries| - 1];
      assert CleanRange(entries, start, n)[..|entries| - 1] == CleanRange(init, start, n);
      DirtyCountNoMore(init, start, n);
    }
  }

  /** Entries that agree with the device may be marked clean. */
  lemma CleanRangeKeeps(s: State, start: nat, n: nat)
    requires Inv(s)
    requires forall i | 0 <= i < BLOCKS && s.entries[i].valid && start <= s.entries[i].lba < start + n ::
               s.entries[i].lba < |s.device| && s.device[s.entries[i].lba] == s.entries[i].data
    ensures var s' := s.(entries := CleanRange(s.entries, start, n), deviceDirty := true); Inv(s') && SameLogical(s, s')
  {
    var s' := s.(entries := CleanRange(s.entries, start, n), deviceDirty := true);
    forall k: nat ensures Logical(s', k) == Logical(s, k) {
      LogicalIs(s, k);
      LogicalIs(s', k);
      if j :| 0 <= j < BLOCKS && s.entries[j].valid && s.entries[j].lba == k {
        assert s'.entries[j].valid && s'.entries[j].lba == k && s'.entries[j].data == s.entries[j].data;
      } else {
        assert forall m | 0 <= m < BLOCKS && s'.entries[m].valid :: s'.entries[m].lba != k;
      }
    }
  }

  /** The sectors of a batch lie next to each other and are the data of dirty entries. */
  lemma BatchIs(s: State, start: nat, n: nat, k: nat)
    requires Inv(s) && n <= BATCH && k < n && start + n <= 0x1_0000_0000
    requires forall j | 0 <= j < n :: Next(s.entries, start, j) >= 0 && s.entries[Next(s.entries, start, j)].dirty
    ensures DirtyAt(s.entries, start + k)
    ensures forall i | 0 <= i < BLOCKS && s.entries[i].valid && s.entries[i].lba == start + k ::
              s.entries[i].data == BatchData(s.entries, start, n)[k]
  {
    var j := Next(s.entries, start, k);
    assert s.entries[j].valid && s.entries[j].dirty && s.entries[j].lba == start + k;
  }

  /** A run of cached dirty sectors that starts with entry `first`. */
  ghost predicate Batch(s: State, start: nat, n: nat, first: nat) {
    && |s.entries| == BLOCKS && 0 < n <= BATCH && first < BLOCKS
    && Next(s.entries, start, 0) == first
    && forall j | 0 <= j < n :: Next(s.entries, start, j) >= 0 && s.entries[Next(s.entries, start, j)].dirty
  }

  /** Writing a batch, whatever its fate. */
  lemma BatchSent(s: State, start: nat, n: nat, first: nat, fate: Fate)
    requires Inv(s) && Batch(s, start, n, first) && OnDisk(s, start, n)
    ensures var w := AtaWrite(s, start, BatchData(s.entries, start, n), fate); Inv(w.0) && SameLogical(s, w.0)
  {
    forall k | start <= k < start + n ensures DirtyAt(s.entries, k) {
      BatchIs(s, start, n, k - start);
    }
    AtaWriteKeeps(s, start, BatchData(s.entries, start, n), fate);
  }

  /** Each cached sector that a successful batch covers is on the device. */
  lemma BatchStored(s: State, start: nat, n: nat, first: nat, fate: Fate, i: nat)
    requires Inv(s) && Batch(s, start, n, first) && OnDisk(s, start, n) && fate.ok
    requires i < BLOCKS && s.entries[i].valid && start <= s.entries[i].lba < start + n
    ensures var device := AtaWrite(s, start, BatchData(s.entries, start, n), fate).0.device;
            s.entries[i].lba < |device| && device[s.entries[i].lba] == s.entries[i].data
  {
    BatchIs(s, start, n, s.entries[i].lba - start);
  }

  /** Marking clean what a batch has written. */
  lemma BatchWritten(s: State, start: nat, n: nat, first: nat, fate: Fate)
    requires Inv(s) && Batch(s, start, n, first) && OnDisk(s, start, n) && fate.ok
    requires Inv(AtaWrite(s, start, BatchData(s.entries, start, n), fate).0)
    ensures var w := AtaWrite(s, start, BatchData(s.entries, start, n), fate).0;
            var s' := w.(entries := CleanRange(w.entries, start, n), deviceDirty := true);
            Inv(s') && SameLogical(w, s') && DirtyCount(s'.entries) < DirtyCount(s.entries)
  {
    forall i | 0 <= i < BLOCKS && s.entries[i].valid && start <= s.entries[i].lba < start + n
      ensures var device := AtaWrite(s, start, BatchData(s.entries, start, n), fate).0.device;
              s.entries[i].lba < |device| && device[s.entries[i].lba] == s.entries[i].data
    {
      BatchStored(s, start, n, first, fate, i);
    }
    CleanRangeKeeps(AtaWrite(s, start, BatchData(s.entries, start, n), fate).0, start, n);
    FirstCovered(s, start, n, first);
  }

  lemma FirstCovered(s: State, start: nat, n: nat, first: nat)
    requires Inv(s) && Batch(s, start, n, first) && OnDisk(s, start, n)
    ensures DirtyCount(CleanRange(s.entries, start, n)) < DirtyCount(s.entries)
  {
    DirtyCountLess(s.entries, start, n, first);
  }

  lemma LowestBatch(s: State)
    requires Inv(s) && Lowest(s.entries, 0, -1) >= 0
    ensures var first := Lowest(s.entries, 0, -1);
            && first < BLOCKS
            && Batch(s, s.entries[first].lba, BatchLen(s.entries, s.entries[first].lba, 0), first)
  {
    LowestIs(s.entries, 0, -1);
    var first := Lowest(s.entries, 0, -1);
    FindUnique(s.entries, s.entries[first].lba, first);
  }

  /** A successful batch makes at least one dirty entry clean; a failed one, however much of it got through, leaves all
      entries as they were.  Neither changes anything that users see. */
  lemma FlushBatchKeeps(s: State, fate: Fate)
    requires Inv(s) && Lowest(s.entries, 0, -1) >= 0
    ensures var r := FlushBatch(s, fate);
            && Inv(r.0) && SameLogical(s, r.0) && |r.0.device| == |s.device|
            && (if r.1 then DirtyCount(r.0.entries) < DirtyCount(s.entries) else r.0.entries == s.entries)
  {
    LowestBatch(s);
    var first := Lowest(s.entries, 0, -1);
    var start := s.entries[first].lba;
    var n := BatchLen(s.entries, start, 0);
    if OnDisk(s, start, n) {
      BatchSent(s, start, n, first, fate);
      if fate.ok {
        BatchWritten(s, start, n, first, fate);
      }
    }
  }

  /** Write all dirty entries back, batch by batch, then have the disk empty its own cache. The i-th request to the disk
      meets fate `fates(i)`. */
  ghost function Flush(s: State, fates: nat -> Fate, i: nat): (r: (State, bool))
    requires Inv(s)
    ensures Shaped(r.0)
    decreases DirtyCount(s.entries)
  {
    if Lowest(s.entries, 0, -1) < 0 then
      if !s.deviceDirty then (s, true)
      else
        var f := AtaFlush(s, fates(i));
        (if f.1 then f.0.(deviceDirty := false) else f.0, f.1)
    else
      FlushBatchKeeps(s, fates(i));
      var b := FlushBatch(s, fates(i));
      if !b.1 then (b.0, false) else Flush(b.0, fates, i + 1)
  }

  lemma AtaFlushKeeps(s: State, fate: Fate)
    requires Inv(s) && forall i | 0 <= i < BLOCKS :: !(s.entries[i].valid && s.entries[i].dirty)
    ensures var f := AtaFlush(s, fate); var s' := if f.1 then f.0.(deviceDirty := false) else f.0;
            Inv(s') && SameLogical(s, s') && (f.1 ==> s'.platter == s.device)
  {
    var f := AtaFlush(s, fate);
    var s' := if f.1 then f.0.(deviceDirty := false) else f.0;
    forall k: nat ensures Logical(s', k) == Logical(s, k) {
    }
  }

  /** What survives a power loss: an empty cache over the platter. */
  function PowerLoss(s: State): (r: State)
    requires Shaped(s)
    ensures Shaped(r)
  {
    State(seq(BLOCKS, k => Entry(false, false, 0, 0, [])), 1, false, s.platter, s.platter)
  }

  lemma AllCleanDurable(s: State, k: nat)
    requires Inv(s) && !s.deviceDirty && k < |s.device|
    requires forall i | 0 <= i < BLOCKS :: !(s.entries[i].valid && s.entries[i].dirty)
    ensures s.platter[k] == s.device[k] && Logical(s, k) == Some(s.platter[k]) == Logical(PowerLoss(s), k)
  {
    LogicalIs(s, k);
    assert !DirtyAt(s.entries, k);
    if i :| 0 <= i < BLOCKS && s.entries[i].valid && s.entries[i].lba == k {
    }
  }

  /** Every sector of the platter shows what users see, and would after a power loss. */
  ghost predicate Durable(s: State)
    requires Shaped(s)
  {
    forall k: nat {:trigger Logical(s, k)} | k < |s.device| ::
      Logical(s, k) == Some(s.platter[k]) == Logical(PowerLoss(s), k)
  }

  lemma AllCleanAllDurable(s: State)
    requires Inv(s) && !s.deviceDirty && forall i | 0 <= i < BLOCKS :: !(s.entries[i].valid && s.entries[i].dirty)
    ensures Durable(s)
  {
    forall k: nat | k < |s.device| ensures Logical(s, k) == Some(s.platter[k]) == Logical(PowerLoss(s), k) {
      AllCleanDurable(s, k);
    }
  }

  lemma FlushEnd(s: State, fates: nat -> Fate, i: nat)
    requires Inv(s) && Lowest(s.entries, 0, -1) < 0
    ensures var r := Flush(s, fates, i);
            Inv(r.0) && SameLogical(s, r.0) && |r.0.device| == |s.device| && (r.1 ==> Durable(r.0))
  {
    LowestIs(s.entries, 0, -1);
    AtaFlushKeeps(s, fates(i));
    if Flush(s, fates, i).1 {
      AllCleanAllDurable(Flush(s, fates, i).0);
    }
  }

  lemma SameLogicalChain(s: State, s1: State, s2: State)
    requires Shaped(s) && Shaped(s1) && Shaped(s2) && SameLogical(s, s1) && SameLogical(s1, s2)
    ensures SameLogical(s, s2)
  {
    forall k: nat ensures Logical(s2, k) == Logical(s, k) {
      assert Logical(s1, k) == Logical(s, k);
    }
  }

  /** A flush changes nothing that users see, whatever fails on the way.  When it returns 0 the platter holds, at every
      sector, what users see there, so a power loss afterwards loses nothing. */
  lemma {:induction false} FlushKeeps(s: State, fates: nat -> Fate, i: nat)
    requires Inv(s)
    ensures var r := Flush(s, fates, i);
            Inv(r.0) && SameLogical(s, r.0) && |r.0.device| == |s.device| && (r.1 ==> Durable(r.0))
    decreases DirtyCount(s.entries)
  {
    if Lowest(s.entries, 0, -1) < 0 {
      FlushEnd(s, fates, i);
    } else {
      FlushBatchKeeps(s, fates(i));
      var b := FlushBatch(s, fates(i));
      if b.1 {
        FlushKeeps(b.0, fates, i + 1);
        SameLogicalChain(s, b.0, Flush(b.0, fates, i + 1).0);
      }
    }
  }

  // ---------------------------------------------------------------- runs

  datatype Op =
    | ReadOp(lba: nat, flush: Fate, read: Fate)
    | WriteOp(lba: nat, data: Data, flush: Fate)
    | FlushOp(fates: nat -> Fate)
    | DestageOp(which: set<nat>)  // the disk empties part of its own cache

  /** A successful write, as the history of a run records it. */
  datatype Event = Event(lba: nat, data: Data)

  /** The last value written to a sector, or what was there before. */
  function LastWritten(history: seq<Event>, lba: nat, before: Option<Data>): Option<Data> {
    if history == [] then before
    else if history[|history| - 1].lba == lba then Some(history[|history| - 1].data)
    else LastWritten(history[..|history| - 1], lba, before)
  }

  /** One operation, and the write it adds to the history. */
  ghost function Step(s: State, op: Op): (r: (State, seq<Event>))
    requires Inv(s)
    ensures Inv(r.0) && |r.0.device| == |s.device|
    ensures forall k: nat {:trigger Logical(r.0, k)} :: Logical(r.0, k) == LastWritten(r.1, k, Logical(s, k))
  {
    match op
    case ReadOp(lba, flush, read) =>
      if lba >= 0x1_0000_0000 then (s, [])
      else
        ReadKeeps(s, lba, flush, read);
        (Read(s, lba, flush, read).0, [])
    case WriteOp(lba, data, flush) =>
      if lba >= 0x1_0000_0000 then (s, [])
      else
        WriteKeeps(s, lba, data, flush);
        (Write(s, lba, data, flush).0, if Write(s, lba, data, flush).1 then [Event(lba, data)] else [])
    case FlushOp(fates) =>
      FlushKeeps(s, fates, 0);
      (Flush(s, fates, 0).0, [])
    case DestageOp(which) =>
      DestageKeeps(s, which);
      (s.(platter := Destage(s.platter, s.device, which)), [])
  }

  lemma DestageKeeps(s: State, which: set<nat>)
    requires Inv(s)
    ensures var s' := s.(platter := Destage(s.platter, s.device, which)); Inv(s') && SameLogical(s, s')
  {
    var s' := s.(platter := Destage(s.platter, s.device, which));
    forall k: nat ensures Logical(s', k) == Logical(s, k) {
    }
  }

  lemma {:induction false} LastWrittenAppend(a: seq<Event>, b: seq<Event>, lba: nat, before: Option<Data>)
    ensures LastWritten(a + b, lba, before) == LastWritten(b, lba, LastWritten(a, lba, before))
    decreases |b|
  {
    if b == [] {
      assert a + b == a;
    } else {
      assert (a + b)[..|a + b| - 1] == a + b[..|b| - 1];
      LastWrittenAppend(a, b[..|b| - 1], lba, before);
    }
  }

  /** A run: the final state and the history of its successful writes. */
  ghost function Run(s: State, ops: seq<Op>): (r: (State, seq<Event>))
    requires Inv(s)
    ensures Inv(r.0)
    decreases |ops|
  {
    if ops == [] then (s, [])
    else
      var first := Step(s, ops[0]);
      var rest := Run(first.0, ops[1..]);
      (rest.0, first.1 + rest.1)
  }

  /** The cache is a plain disk: after any run of reads, writes and flushes with any failures, every sector shows the
      last value successfully written to it. */
  lemma {:induction false} PlainDisk(s: State, ops: seq<Op>, lba: nat)
    requires Inv(s)
    ensures Logical(Run(s, ops).0, lba) == LastWritten(Run(s, ops).1, lba, Logical(s, lba))
    decreases |ops|
  {
    if ops != [] {
      var first := Step(s, ops[0]);
      PlainDisk(first.0, ops[1..], lba);
      LastWrittenAppend(first.1, Run(first.0, ops[1..]).1, lba, Logical(s, lba));
    }
  }

  /** And a read at that point, if it succeeds, returns it. */
  lemma ReadsLastWritten(s: State, ops: seq<Op>, lba: nat, flush: Fate, read: Fate)
    requires Inv(s) && lba < 0x1_0000_0000
    ensures var r := Read(Run(s, ops).0, lba, flush, read);
            r.1.Some? ==> r.1 == LastWritten(Run(s, ops).1, lba, Logical(s, lba))
  {
    PlainDisk(s, ops, lba);
    ReadKeeps(Run(s, ops).0, lba, flush, read);
  }

  lemma BootInv(disk: seq<Data>)
    ensures Inv(PowerLoss(State(seq(BLOCKS, k => Entry(false, false, 0, 0, [])), 1, false, disk, disk)))
  {
  }
}

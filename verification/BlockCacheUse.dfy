/** When the calls of the block cache succeed, what they leave in the cache, and which entry is given up. */
module BlockCacheUse {
  import opened Common
  import opened BlockCache

  predicate Cached(s: State, lba: nat) {
    exists i :: 0 <= i < |s.entries| && s.entries[i].valid && s.entries[i].lba == lba
  }

  /** A sector that the disk has and that a request can name. */
  predicate Reachable(s: State, lba: nat) {
    lba < |s.device| && lba <= 0x0FFF_FFFF
  }

  /** Giving up this entry fails: it has to be written back and the disk does not take it. */
  predicate Stuck(s: State, e: Entry, flush: Fate) {
    IsDirty(e) && !(Reachable(s, e.lba) && flush.ok)
  }

  lemma OneVictim(entries: seq<Entry>, v: nat, w: nat)
    requires v < |entries| && w < |entries| && Victim(entries, |entries|, v) && Victim(entries, |entries|, w)
    ensures v == w
  {
  }

  lemma VictimIs(s: State, v: nat)
    requires Shaped(s) && v < BLOCKS && Victim(s.entries, BLOCKS, v)
    ensures Pick(s.entries, 0, 0) == v
  {
    PickIs(s.entries, 0, 0);
    OneVictim(s.entries, v, Pick(s.entries, 0, 0));
  }

  lemma FoundIffCached(s: State, lba: nat)
    requires Shaped(s)
    ensures Find(s.entries, lba, 0) >= 0 <==> Cached(s, lba)
  {
  }

  // ---------------------------------------------------------------- success and failure

  /** Giving up an entry succeeds unless it is stuck; then the disk has its data and nothing else in the cache moves. */
  lemma GivenUp(s: State, i: nat, flush: Fate)
    requires Shaped(s) && i < BLOCKS
    ensures var r := FlushEntry(s, i, flush); var e := s.entries[i];
            && (r.1 <==> !Stuck(s, e, flush)) && r.0.clock == s.clock && |r.0.device| == |s.device|
            && (r.1 ==> r.0.entries == s.entries[i := if IsDirty(e) then Clean(e) else e])
            && (!r.1 ==> r.0.entries == s.entries)
            && (r.1 && IsDirty(e) ==> r.0.device == s.device[e.lba := e.data])
            && (!IsDirty(e) ==> r.0 == s)
  {
    var e := s.entries[i];
    if IsDirty(e) && Reachable(s, e.lba) && flush.ok {
      assert Store(s.device, e.lba, [e.data]) == s.device[e.lba := e.data];
    }
  }

  /** A read fails exactly when the sector is not cached and either the victim cannot be written back or the disk does
      not deliver the sector. After a miss the sector sits in the place of the victim; no other entry has moved. */
  lemma ReadAnswer(s: State, lba: nat, flush: Fate, read: Fate, v: nat)
    requires Inv(s) && v < BLOCKS && Victim(s.entries, BLOCKS, v)
    ensures var r := Read(s, lba, flush, read);
            && (r.1.None? <==> !Cached(s, lba) && (Stuck(s, s.entries[v], flush) || !Reachable(s, lba) || !read.ok))
            && (r.1.Some? ==> Cached(r.0, lba))
            && (forall i | 0 <= i < BLOCKS && i != v && !(s.entries[i].valid && s.entries[i].lba == lba) ::
                  r.0.entries[i] == s.entries[i])
            && (r.1.Some? && !Cached(s, lba) ==>
                  r.0.entries[v] == Entry(true, false, lba, Tick(s.clock), r.1.value) && r.0.clock == Tick(s.clock))
            && (Cached(s, lba) ==> r.0.device == s.device && r.0.platter == s.platter)
  {
    VictimIs(s, v);
    FoundIffCached(s, lba);
    if !Cached(s, lba) {
      GivenUp(s, v, flush);
      assert Read(s, lba, flush, read).1.Some? ==> Read(s, lba, flush, read).0.entries[v].lba == lba;
    } else {
      var h := Find(s.entries, lba, 0);
      assert Read(s, lba, flush, read).0.entries[h].lba == lba;
    }
  }

  /** A write fails exactly when the sector is not cached and the victim cannot be written back.  A write that succeeds
      leaves the sector in the cache, dirty and with the new data; the disk is not asked for it. */
  lemma WriteAnswer(s: State, lba: nat, data: Data, flush: Fate, v: nat)
    requires Inv(s) && v < BLOCKS && Victim(s.entries, BLOCKS, v)
    ensures var r := Write(s, lba, data, flush);
            && (!r.1 <==> !Cached(s, lba) && Stuck(s, s.entries[v], flush))
            && (r.1 ==> DirtyAt(r.0.entries, lba))
            && (forall i | 0 <= i < BLOCKS && i != v && !(s.entries[i].valid && s.entries[i].lba == lba) ::
                  r.0.entries[i] == s.entries[i])
            && (Cached(s, lba) || !IsDirty(s.entries[v]) ==> r.0.device == s.device && r.0.platter == s.platter)
  {
    VictimIs(s, v);
    FoundIffCached(s, lba);
    var r := Write(s, lba, data, flush);
    if !Cached(s, lba) {
      GivenUp(s, v, flush);
      assert r.1 ==> IsDirty(r.0.entries[v]) && r.0.entries[v].lba == lba;
    } else {
      var h := Find(s.entries, lba, 0);
      assert IsDirty(r.0.entries[h]) && r.0.entries[h].lba == lba;
    }
  }

  /** The entry that would have to be given up now is stuck. */
  ghost predicate VictimStuck(s: State, flush: Fate)
    requires Shaped(s)
  {
    exists v :: 0 <= v < BLOCKS && Victim(s.entries, BLOCKS, v) && Stuck(s, s.entries[v], flush)
  }

  lemma StuckIs(s: State, flush: Fate)
    requires Shaped(s)
    ensures VictimStuck(s, flush) <==> Stuck(s, s.entries[Pick(s.entries, 0, 0)], flush)
  {
    PickIs(s.entries, 0, 0);
    if VictimStuck(s, flush) {
      var v :| 0 <= v < BLOCKS && Victim(s.entries, BLOCKS, v) && Stuck(s, s.entries[v], flush);
      VictimIs(s, v);
    }
  }

  /** A read fails if and only if the sector is not cached and the victim is stuck or the disk does not deliver. */
  lemma ReadFails(s: State, lba: nat, flush: Fate, read: Fate)
    requires Inv(s)
    ensures Read(s, lba, flush, read).1.None? <==>
              !Cached(s, lba) && (VictimStuck(s, flush) || !Reachable(s, lba) || !read.ok)
    ensures Read(s, lba, flush, read).1.Some? ==> Cached(Read(s, lba, flush, read).0, lba)
  {
    PickIs(s.entries, 0, 0);
    StuckIs(s, flush);
    ReadAnswer(s, lba, flush, read, Pick(s.entries, 0, 0));
  }

  /** A write fails if and only if the sector is not cached and the victim is stuck. */
  lemma WriteFails(s: State, lba: nat, data: Data, flush: Fate)
    requires Inv(s)
    ensures !Write(s, lba, data, flush).1 <==> !Cached(s, lba) && VictimStuck(s, flush)
  {
    PickIs(s.entries, 0, 0);
    StuckIs(s, flush);
    WriteAnswer(s, lba, data, flush, Pick(s.entries, 0, 0));
  }

  // ---------------------------------------------------------------- flushing

  predicate DirtyReachable(s: State) {
    forall i | 0 <= i < |s.entries| && IsDirty(s.entries[i]) :: Reachable(s, s.entries[i].lba)
  }

  /** A batch covers as many adjacent dirty sectors as there are, up to eight. */
  lemma {:induction false} BatchMaximal(entries: seq<Entry>, start: nat, n: nat)
    requires n <= BATCH
    ensures var m := BatchLen(entries, start, n);
            m == BATCH || Next(entries, start, m) < 0 || !entries[Next(entries, start, m)].dirty
    decreases BATCH - n
  {
    if !(n == BATCH || Next(entries, start, n) < 0 || !entries[Next(entries, start, n)].dirty) {
      BatchMaximal(entries, start, n + 1);
    }
  }

  /** All sectors of a batch are on the disk when its dirty entries are; and when the batch goes through, those it
      cleans were. */
  lemma BatchReachable(s: State, start: nat, n: nat, first: nat)
    requires Inv(s) && Batch(s, start, n, first) && DirtyReachable(s) && start + n <= 0x1_0000_0000
    ensures OnDisk(s, start, n)
  {
    var j := Next(s.entries, start, n - 1);
    assert IsDirty(s.entries[j]) && s.entries[j].lba == start + (n - 1);
  }

  lemma NoWrap(s: State, start: nat, n: nat, first: nat)
    requires Inv(s) && Batch(s, start, n, first) && DirtyReachable(s) && start == s.entries[first].lba
    ensures start + n <= 0x1_0000_0000
  {
    assert IsDirty(s.entries[first]);
  }

  /** A batch with a good fate goes through when every dirty sector is on the disk; and a batch that goes through leaves
      a dirty sector off the disk where it is. */
  lemma BatchAnswer(s: State, fate: Fate)
    requires Inv(s) && Lowest(s.entries, 0, -1) >= 0
    ensures var r := FlushBatch(s, fate);
            && |r.0.device| == |s.device| && r.0.deviceDirty == (s.deviceDirty || r.1)
            && (fate.ok && DirtyReachable(s) ==> r.1)
            && (r.1 ==> (DirtyReachable(r.0) <==> DirtyReachable(s)))
  {
    LowestBatch(s);
    LowestIs(s.entries, 0, -1);
    var first := Lowest(s.entries, 0, -1);
    var start := s.entries[first].lba;
    var n := BatchLen(s.entries, start, 0);
    if DirtyReachable(s) {
      NoWrap(s, start, n, first);
      BatchReachable(s, start, n, first);
    }
    var r := FlushBatch(s, fate);
    if r.1 && DirtyReachable(r.0) {
      forall i | 0 <= i < BLOCKS && IsDirty(s.entries[i]) ensures Reachable(s, s.entries[i].lba) {
        assert r.0.entries[i] == s.entries[i] || start <= s.entries[i].lba < start + n;
      }
    }
  }

  /** With a disk that takes every request, a flush returns 0 if and only if every dirty sector is on the disk.  And
      whatever happens, it does not return 0 while there is a dirty sector off the disk. */
  lemma {:induction false} FlushAnswer(s: State, fates: nat -> Fate, i: nat)
    requires Inv(s)
    ensures Flush(s, fates, i).1 ==> DirtyReachable(s)
    ensures (forall j: nat | j >= i :: fates(j).ok) && DirtyReachable(s) ==> Flush(s, fates, i).1
    decreases DirtyCount(s.entries)
  {
    LowestIs(s.entries, 0, -1);
    if Lowest(s.entries, 0, -1) >= 0 {
      FlushBatchKeeps(s, fates(i));
      BatchAnswer(s, fates(i));
      var b := FlushBatch(s, fates(i));
      if b.1 {
        FlushAnswer(b.0, fates, i + 1);
      }
    }
  }

  // ---------------------------------------------------------------- which entry is given up

  /** The position of the last use of a sector, -1 if it has not been used. */
  function LastUse(uses: seq<nat>, lba: nat): (r: int)
    ensures -1 <= r < |uses|
  {
    if uses == [] then -1
    else if uses[|uses| - 1] == lba then |uses| - 1
    else LastUse(uses[..|uses| - 1], lba)
  }

  /** While the clock has not wrapped, ages are the times of last use. */
  ghost predicate Aged(s: State, uses: seq<nat>, base: nat) {
    && s.clock == base + |uses|
    && forall i | 0 <= i < |s.entries| && s.entries[i].valid ::
         LastUse(uses, s.entries[i].lba) >= 0 && s.entries[i].age == base + 1 + LastUse(uses, s.entries[i].lba)
  }

  lemma UsedAgain(uses: seq<nat>, lba: nat, k: nat)
    ensures LastUse(uses + [lba], k) == if k == lba then |uses| else LastUse(uses, k)
  {
    assert (uses + [lba])[..|uses|] == uses;
  }

  /** What a successful read or write adds to the history of uses. */
  function Uses(op: Op, s: State): seq<nat>
    requires Shaped(s)
  {
    match op
    case ReadOp(lba, flush, read) =>
      if lba < 0x1_0000_0000 && Read(s, lba, flush, read).1.Some? then [lba] else []
    case WriteOp(lba, data, flush) =>
      if lba < 0x1_0000_0000 && Write(s, lba, data, flush).1 then [lba] else []
    case _ => []
  }

  /** A sector that has just been used has the time of now as its age; the others keep theirs. */
  lemma UseAges(s: State, s': State, uses: seq<nat>, base: nat, lba: nat, at: nat)
    requires Shaped(s) && Shaped(s') && Unique(s'.entries) && Aged(s, uses, base) && at < BLOCKS
    requires s.clock + 1 < 0x1_0000_0000 && s'.clock == s.clock + 1
    requires s'.entries[at].valid && s'.entries[at].lba == lba && s'.entries[at].age == s.clock + 1
    requires forall i | 0 <= i < BLOCKS && i != at ::
               s'.entries[i].valid == s.entries[i].valid && s'.entries[i].lba == s.entries[i].lba
               && s'.entries[i].age == s.entries[i].age
    ensures Aged(s', uses + [lba], base)
  {
    forall i | 0 <= i < BLOCKS && s'.entries[i].valid
      ensures LastUse(uses + [lba], s'.entries[i].lba) >= 0
              && s'.entries[i].age == base + 1 + LastUse(uses + [lba], s'.entries[i].lba)
    {
      UsedAgain(uses, lba, s'.entries[i].lba);
    }
  }

  predicate SameAges(s: State, s': State) {
    && |s'.entries| == |s.entries| && s'.clock == s.clock
    && forall i | 0 <= i < |s.entries| ::
         s'.entries[i].valid == s.entries[i].valid && s'.entries[i].lba == s.entries[i].lba
         && s'.entries[i].age == s.entries[i].age
  }

  lemma {:induction false} FlushAges(s: State, fates: nat -> Fate, i: nat)
    requires Inv(s)
    ensures SameAges(s, Flush(s, fates, i).0)
    decreases DirtyCount(s.entries)
  {
    if Lowest(s.entries, 0, -1) >= 0 {
      FlushBatchKeeps(s, fates(i));
      var b := FlushBatch(s, fates(i));
      if b.1 {
        FlushAges(b.0, fates, i + 1);
      }
    }
  }

  lemma ReadAges(s: State, uses: seq<nat>, base: nat, lba: nat, flush: Fate, read: Fate)
    requires Inv(s) && Aged(s, uses, base) && s.clock + 1 < 0x1_0000_0000 && lba < 0x1_0000_0000
    ensures var r := Read(s, lba, flush, read); Aged(r.0, uses + if r.1.Some? then [lba] else [], base)
  {
    var r := Read(s, lba, flush, read);
    ReadKeeps(s, lba, flush, read);
    var h := Find(s.entries, lba, 0);
    var v := if h >= 0 then h else Pick(s.entries, 0, 0);
    if h < 0 {
      GivenUp(s, v, flush);
    }
    if r.1.Some? {
      UseAges(s, r.0, uses, base, lba, v);
    } else {
      assert uses + [] == uses;
    }
  }

  lemma WriteAges(s: State, uses: seq<nat>, base: nat, lba: nat, data: Data, flush: Fate)
    requires Inv(s) && Aged(s, uses, base) && s.clock + 1 < 0x1_0000_0000 && lba < 0x1_0000_0000
    ensures var r := Write(s, lba, data, flush); Aged(r.0, uses + if r.1 then [lba] else [], base)
  {
    var r := Write(s, lba, data, flush);
    WriteKeeps(s, lba, data, flush);
    var h := Find(s.entries, lba, 0);
    var v := if h >= 0 then h else Pick(s.entries, 0, 0);
    if h < 0 {
      GivenUp(s, v, flush);
    }
    if r.1 {
      UseAges(s, r.0, uses, base, lba, v);
    } else {
      assert uses + [] == uses;
    }
  }

  lemma StepAges(s: State, op: Op, uses: seq<nat>, base: nat)
    requires Inv(s) && Aged(s, uses, base) && s.clock + 1 < 0x1_0000_0000
    ensures Aged(Step(s, op).0, uses + Uses(op, s), base)
  {
    assert uses + [] == uses;
    match op
    case ReadOp(lba, flush, read) =>
      if lba < 0x1_0000_0000 {
        ReadAges(s, uses, base, lba, flush, read);
      }
    case WriteOp(lba, data, flush) =>
      if lba < 0x1_0000_0000 {
        WriteAges(s, uses, base, lba, data, flush);
      }
    case FlushOp(fates) => FlushAges(s, fates, 0);
    case DestageOp(which) =>
  }

  /** The sectors that a run has used, in order. */
  ghost function Used(s: State, ops: seq<Op>): seq<nat>
    requires Inv(s)
    decreases |ops|
  {
    if ops == [] then [] else Uses(ops[0], s) + Used(Step(s, ops[0]).0, ops[1..])
  }

  lemma Appended(a: seq<nat>, b: seq<nat>, c: seq<nat>)
    ensures a + (b + c) == (a + b) + c
  {
  }

  lemma {:induction false} RunAges(s: State, ops: seq<Op>, uses: seq<nat>, base: nat, s': State, all: seq<nat>)
    requires Inv(s) && Aged(s, uses, base) && s.clock + |ops| < 0x1_0000_0000
    requires s' == Run(s, ops).0 && all == uses + Used(s, ops)
    ensures Aged(s', all, base)
    decreases |ops|
  {
    if ops == [] {
      assert all == uses;
    } else {
      StepAges(s, ops[0], uses, base);
      Appended(uses, Uses(ops[0], s), Used(Step(s, ops[0]).0, ops[1..]));
      RunAges(Step(s, ops[0]).0, ops[1..], uses + Uses(ops[0], s), base, s', all);
    }
  }

  /** The entry given up is the one least recently used. Over any run from an empty cache during which the clock does
      not wrap: once all entries are in use, the victim's sector was used last before that of every other entry. */
  lemma LeastRecentlyUsed(s: State, ops: seq<Op>, v: nat, k: nat)
    requires Inv(s) && (forall i | 0 <= i < BLOCKS :: !s.entries[i].valid) && s.clock + |ops| < 0x1_0000_0000
    requires v < BLOCKS && k < BLOCKS && k != v && Victim(Run(s, ops).0.entries, BLOCKS, v)
    requires Run(s, ops).0.entries[v].valid
    ensures var e := Run(s, ops).0.entries;
            e[k].valid && LastUse(Used(s, ops), e[v].lba) < LastUse(Used(s, ops), e[k].lba)
  {
    assert [] + Used(s, ops) == Used(s, ops);
    RunAges(s, ops, [], s.clock, Run(s, ops).0, Used(s, ops));
    DifferentUses(Used(s, ops), Run(s, ops).0.entries[v].lba, Run(s, ops).0.entries[k].lba);
  }

  lemma {:induction false} DifferentUses(uses: seq<nat>, a: nat, b: nat)
    requires a != b && LastUse(uses, a) >= 0
    ensures LastUse(uses, a) != LastUse(uses, b)
    decreases |uses|
  {
    if uses[|uses| - 1] != a && uses[|uses| - 1] != b {
      DifferentUses(uses[..|uses| - 1], a, b);
    }
  }
}

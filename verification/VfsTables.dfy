/** What opening, duplicating, closing and setting up descriptors leaves in the tables, said slot by slot. */
module VfsTables {
  import opened Common
  import opened PipeRing
  import opened Vfs
  import opened VfsCount
  import opened VfsInv
  import opened VfsRuns
  import opened VfsAnswers

  /** Descriptor b names what it named, with the same pipe end behind it. */
  predicate SameSlot(t: Table, t': Table, b: nat)
    requires TableShaped(t) && TableShaped(t') && b < FDS
  {
    && t'.used[b] == t.used[b]
    && (t.used[b] ==>
          && t'.file[b] == t.file[b] && Live(t, b) && Live(t', b)
          && t'.files[t.file[b]].pipe == t.files[t.file[b]].pipe && t'.files[t.file[b]].end == t.files[t.file[b]].end)
  }

  /** All tables but that of owner o are as before, and in that one all descriptors but those of `except`. */
  predicate Untouched(s: State, s': State, o: nat, except: set<int>)
    requires Shaped(s) && Shaped(s') && o < TASKS
  {
    && s'.tables == s.tables[o := s'.tables[o]]
    && forall b | 0 <= b < FDS && b !in except :: SameSlot(s.tables[o], s'.tables[o], b)
  }

  predicate Quietly(s: State, s': State) {
    s'.pipes == s.pipes && s'.tasks == s.tasks
  }

  /** The lowest descriptor that is free. */
  predicate Lowest(t: Table, fd: int)
    requires TableShaped(t)
  {
    0 <= fd < FDS && !t.used[fd] && forall b | 0 <= b < fd :: t.used[b]
  }

  /** No other descriptor names the open file behind this one. */
  predicate Alone(t: Table, fd: int)
    requires TableShaped(t) && 0 <= fd < FDS
  {
    forall b | 0 <= b < FDS && b != fd && t.used[b] :: t.file[b] != t.file[fd]
  }

  // ---------------------------------------------------------------- opening and duplicating

  /** A file that is opened gets the lowest free descriptor and an open file of its own; nothing else moves. */
  lemma OpenAnswer(s: State, o: nat, found: bool, good: bool)
    requires Inv(s) && o < TASKS
    ensures var r := Open(s, o, found, good);
            && Inv(r.0) && Quietly(s, r.0)
            && (r.1 >= 0 <==> found && good && exists fd :: Lowest(s.tables[o], fd))
            && (r.1 < 0 ==> r == (s, -1))
            && (r.1 >= 0 ==> Lowest(s.tables[o], r.1) && Untouched(s, r.0, o, {r.1}) && IsEnd(r.0, o, r.1, NoEnd)
                             && Alone(r.0.tables[o], r.1))
  {
    var t := s.tables[o];
    OpenInv(s, o, found, good);
    FreeSlotIs(t.used, 0);
    FreeSlotIs(FilesUsed(t.files), 0);
    if FreeSlot(t.used, 0) >= 0 {
      OpenFileAvailable(t);
      assert Lowest(t, FreeSlot(t.used, 0));
    }
  }

  /** A duplicate is the lowest free descriptor, and names the open file that the original names. */
  lemma DupAnswer(s: State, o: nat, fd: int)
    requires Inv(s) && o < TASKS
    ensures var r := Dup(s, o, fd);
            && Inv(r.0) && Quietly(s, r.0)
            && (r.1 >= 0 <==> Live(s.tables[o], fd) && exists b :: Lowest(s.tables[o], b))
            && (r.1 < 0 ==> r == (s, -1))
            && (r.1 >= 0 ==> Lowest(s.tables[o], r.1) && Untouched(s, r.0, o, {r.1}) && Live(r.0.tables[o], r.1)
                             && r.0.tables[o].file[r.1] == s.tables[o].file[fd])
  {
    var t := s.tables[o];
    DupInv(s, o, fd);
    FreeSlotIs(t.used, 0);
    if FreeSlot(t.used, 0) >= 0 {
      assert Lowest(t, FreeSlot(t.used, 0));
    }
  }

  // ---------------------------------------------------------------- making a pipe

  /** The two lowest free descriptors. */
  predicate TwoLowest(t: Table, a: int, b: int)
    requires TableShaped(t)
  {
    Lowest(t, a) && a < b < FDS && !t.used[b] && forall c | a < c < b :: t.used[c]
  }

  lemma FreePair(t: Table)
    requires TableOk(t)
    ensures var a := FreeSlot(t.used, 0);
            var b := if a < 0 then -1 else FreeSlot(t.used[a := true], 0);
            if a < 0 || b < 0 then forall c, d :: !TwoLowest(t, c, d) else TwoLowest(t, a, b)
  {
    var a := FreeSlot(t.used, 0);
    FreeSlotIs(t.used, 0);
    if a >= 0 {
      var u := t.used[a := true];
      FreeSlotIs(u, 0);
      assert forall c {:trigger t.used[c]} | a < c < FDS :: t.used[c] == u[c];
      var b := FreeSlot(u, 0);
      assert b >= 0 ==> b > a && !t.used[b];
      forall c, d ensures TwoLowest(t, c, d) ==> c == a && !u[d] {
      }
    }
  }

  predicate FreshPipe(s: State, s': State, k: int)
    requires Shaped(s) && Shaped(s')
  {
    && 0 <= k < PIPES && !s.pipes[k].used && s'.pipes == s.pipes[k := s'.pipes[k]]
    && s'.pipes[k].used && s'.pipes[k].readers == 1 && s'.pipes[k].writers == 1 && s'.pipes[k].ring.Content() == []
    && s'.pipes[k].readWaiters == {} && s'.pipes[k].writeWaiters == {}
  }

  /** What a pipe that has been made is: an empty pipe, the first number its reading end, the second its writing end. */
  predicate PipeMade(s: State, s': State, o: nat, k: int, r: int, w: int)
    requires Shaped(s) && Shaped(s') && o < TASKS
  {
    && FreshPipe(s, s', k) && s'.tasks == s.tasks && TwoLowest(s.tables[o], r, w) && Untouched(s, s', o, {r, w})
    && Leads(s', o, r, k, ReadEnd) && Leads(s', o, w, k, WriteEnd)
    && Alone(s'.tables[o], r) && Alone(s'.tables[o], w)
  }

  lemma NewSlots(s: State, o: nat)
    requires Inv(s) && o < TASKS && MakePipe(s, o).1 >= 0
    ensures var r := MakePipe(s, o); PipeMade(s, r.0, o, FreeSlot(FreePipe(s.pipes), 0), r.1, r.2)
  {
    var t := s.tables[o];
    FreePair(t);
    TwoOpenFilesAvailable(t);
    FreeSlotIs(FreePipe(s.pipes), 0);
    FreeSlotIs(FilesUsed(t.files), 0);
    FreeSlotIs(FilesUsed(t.files)[FreeSlot(FilesUsed(t.files), 0) := true], 0);
  }

  /** Making a pipe fails exactly for lack of a pipe or of two descriptors. */
  lemma MakePipeAnswer(s: State, o: nat)
    requires Inv(s) && o < TASKS
    ensures var r := MakePipe(s, o);
            && Inv(r.0) && (r.1 < 0 ==> r == (s, -1, -1))
            && (r.1 >= 0 <==> (exists k :: 0 <= k < PIPES && !s.pipes[k].used)
                              && exists a, b :: TwoLowest(s.tables[o], a, b))
            && (r.1 >= 0 ==> PipeMade(s, r.0, o, FreeSlot(FreePipe(s.pipes), 0), r.1, r.2))
  {
    var t := s.tables[o];
    MakePipeInv(s, o);
    MakePipeSucceeds(s, o);
    FreePair(t);
    FreeSlotIs(FreePipe(s.pipes), 0);
    if MakePipe(s, o).1 >= 0 {
      NewSlots(s, o);
    }
  }

  // ---------------------------------------------------------------- closing

  lemma {:induction false} NamesOne(t: Table, n: nat, fd: nat)
    requires TableShaped(t) && fd < FDS && n <= FDS && t.used[fd] && Alone(t, fd)
    ensures Names(t, n, t.file[fd]) == if fd < n then 1 else 0
    decreases n
  {
    if n > 0 {
      NamesOne(t, n - 1, fd);
    }
  }

  lemma LastIsAlone(t: Table, fd: nat)
    requires TableOk(t) && fd < FDS && Live(t, fd)
    ensures LastRef(t, fd) <==> Alone(t, fd)
  {
    if Alone(t, fd) {
      NamesOne(t, FDS, fd);
    } else {
      var b :| 0 <= b < FDS && b != fd && t.used[b] && t.file[b] == t.file[fd];
      NamesTwo(t, FDS, b, fd);
    }
  }

  /** An end of pipe k has been closed for good: its count falls by one; the pipe is free when both counts are 0; and
      those who wait for an end that has nobody left are woken, and no one else. */
  predicate EndClosed(s: State, s': State, k: nat, end: End)
    requires Shaped(s) && Shaped(s') && k < PIPES
  {
    var p, p' := s.pipes[k], s'.pipes[k];
    && s'.pipes == s.pipes[k := p'] && p'.ring == p.ring
    && p'.readers == p.readers - (if end == ReadEnd then 1 else 0)
    && p'.writers == p.writers - (if end == WriteEnd then 1 else 0)
    && (p'.used <==> p'.readers > 0 || p'.writers > 0)
    && Woken(s.tasks, s'.tasks,
             (if p'.readers == 0 then p.writeWaiters else {}) + (if p'.writers == 0 then p.readWaiters else {}), TASKS)
    && p'.writeWaiters == (if p'.readers == 0 then {} else p.writeWaiters)
    && p'.readWaiters == (if p'.writers == 0 then {} else p.readWaiters)
  }

  /** Closing frees exactly this descriptor. The open file behind it goes exactly when no other descriptor names it, and
      only then does the pipe lose an end. */
  lemma CloseAnswer(s: State, o: nat, fd: int)
    requires Inv(s) && o < TASKS
    ensures var s' := CloseFd(s, o, fd);
            && Inv(s')
            && if !Live(s.tables[o], fd) then s' == s
               else
                 var i, f := s.tables[o].file[fd], FileOf(s, o, fd);
                 && Untouched(s, s', o, {fd}) && !s'.tables[o].used[fd]
                 && (s'.tables[o].files[i].used <==> !Alone(s.tables[o], fd))
                 && if f.end != NoEnd && Alone(s.tables[o], fd)
                   then 0 <= f.pipe < PIPES && EndClosed(s, s', f.pipe, f.end)
                    else Quietly(s, s')
  {
    CloseFdInv(s, o, fd);
    if Live(s.tables[o], fd) {
      var f := FileOf(s, o, fd);
      LastIsAlone(s.tables[o], fd);
      CloseSlots(s, o, fd);
      assert FileOk(f);
      if f.end != NoEnd {
        EndInUse(s, o, fd, f.end);
      }
    }
  }

  lemma CloseSlots(s: State, o: nat, fd: nat)
    requires Inv(s) && o < TASKS && fd < FDS && Live(s.tables[o], fd)
    ensures var s' := CloseFd(s, o, fd);
            && Untouched(s, s', o, {fd}) && !s'.tables[o].used[fd]
            && (s'.tables[o].files[s.tables[o].file[fd]].used <==> !LastRef(s.tables[o], fd))
  {
    CloseFdInv(s, o, fd);
    CloseFdTables(s, o, fd);
    var t, t' := s.tables[o], CloseFd(s, o, fd).tables[o];
    forall b | 0 <= b < FDS && b !in {fd as int} ensures SameSlot(t, t', b) {
      if t.used[b] {
        StillOpen(s, o, b, fd);
      }
    }
  }

  // ---------------------------------------------------------------- standard streams

  lemma UntouchedTwice(s: State, s1: State, s2: State, o: nat, a: set<int>, b: set<int>)
    requires Shaped(s) && Shaped(s1) && Shaped(s2) && o < TASKS && Untouched(s, s1, o, a) && Untouched(s1, s2, o, b)
    ensures Untouched(s, s2, o, a + b)
  {
    forall c | 0 <= c < FDS && c !in a + b ensures SameSlot(s.tables[o], s2.tables[o], c) {
      assert SameSlot(s.tables[o], s1.tables[o], c) && SameSlot(s1.tables[o], s2.tables[o], c);
    }
  }

  /** Descriptors 0, 1 and 2, as far as they are used, are files that are not pipes. */
  predicate PlainStreams(t: Table)
    requires TableShaped(t)
  {
    forall fd | 0 <= fd < 3 && t.used[fd] :: Live(t, fd) && t.files[t.file[fd]].end == NoEnd
  }

  predicate LowFree(t: Table)
    requires TableShaped(t)
  {
    !t.used[0] || !t.used[1] || !t.used[2]
  }

  /** An open while one of the first three descriptors is free. */
  lemma OpenLow(s: State, o: nat, found: bool, good: bool)
    requires Inv(s) && o < TASKS && PlainStreams(s.tables[o]) && LowFree(s.tables[o])
    ensures var r := Open(s, o, found, good);
            && Inv(r.0) && Quietly(s, r.0) && Untouched(s, r.0, o, {0, 1, 2}) && PlainStreams(r.0.tables[o])
            && (r.1 >= 0 <==> found && good) && (r.1 < 0 ==> r.0 == s)
            && (r.1 >= 0 ==> Lowest(s.tables[o], r.1) && r.1 < 3 && r.0.tables[o].used == s.tables[o].used[r.1 := true])
  {
    var t := s.tables[o];
    OpenAnswer(s, o, found, good);
    FreeSlotIs(t.used, 0);
    var r := Open(s, o, found, good);
    assert Lowest(t, FreeSlot(t.used, 0));
    if r.1 < 0 {
      forall b | 0 <= b < FDS ensures SameSlot(t, t, b) {
      }
    } else {
      assert Untouched(s, r.0, o, {r.1});
      forall fd | 0 <= fd < 3 && r.0.tables[o].used[fd] && fd != r.1
        ensures r.0.tables[o].files[r.0.tables[o].file[fd]].end == NoEnd
      {
        assert SameSlot(t, r.0.tables[o], fd);
      }
    }
  }

  /** Three opens onto three free low descriptors: those above stay, the three are plain files, all of them in use when
      all opens succeed, and then the result is 0. */
  lemma ThreeAnswer(s: State, o: nat, found: bool, a: bool, b: bool, c: bool)
    requires Inv(s) && o < TASKS && forall fd | 0 <= fd < 3 :: !s.tables[o].used[fd]
    ensures var r := OpenThree(s, o, found, a, b, c);
            && Inv(r.0) && Quietly(s, r.0) && Untouched(s, r.0, o, {0, 1, 2}) && PlainStreams(r.0.tables[o])
            && r.1 == (if found && a && b && c then 0 else -1)
            && (r.1 == 0 ==> forall fd | 0 <= fd < 3 :: r.0.tables[o].used[fd])
  {
    assert LowFree(s.tables[o]);
    OpenLow(s, o, found, a);
    var r0 := Open(s, o, found, a);
    assert LowFree(r0.0.tables[o]);
    OpenLow(r0.0, o, found, b);
    var r1 := Open(r0.0, o, found, b);
    UntouchedTwice(s, r0.0, r1.0, o, {0, 1, 2}, {0, 1, 2});
    assert LowFree(r1.0.tables[o]);
    OpenLow(r1.0, o, found, c);
    UntouchedTwice(s, r1.0, Open(r1.0, o, found, c).0, o, {0, 1, 2}, {0, 1, 2});
    assert {0, 1, 2} + {0, 1, 2} == {0, 1, 2};
    OpenThreeResult(s, o, found, a, b, c);
  }

  /** A task set up with standard streams has these descriptors and no others. */
  lemma StdioAnswer(s: State, o: nat, found: bool, a: bool, b: bool, c: bool)
    requires Inv(s) && o < TASKS
    ensures var r := SetupStdio(s, o, found, a, b, c);
            && Inv(r.0) && r.0.tables == s.tables[o := r.0.tables[o]] && PlainStreams(r.0.tables[o])
            && (forall fd | 3 <= fd < FDS :: !r.0.tables[o].used[fd])
            && r.1 == (if found && a && b && c then 0 else -1)
            && (r.1 == 0 ==> forall fd | 0 <= fd < 3 :: r.0.tables[o].used[fd])
  {
    ResetInv(s, o);
    ThreeAnswer(Reset(s, o), o, found, a, b, c);
    var r := SetupStdio(s, o, found, a, b, c);
    var t := Reset(s, o).tables[o];
    forall fd | 3 <= fd < FDS ensures !r.0.tables[o].used[fd] {
      assert !t.used[fd] && SameSlot(t, r.0.tables[o], fd);
    }
  }

  lemma {:induction false} CloseUpToKeeps(s: State, o: nat, n: nat, low: set<int>)
    requires Inv(s) && o < TASKS && n <= FDS && forall fd | 0 <= fd < n :: fd in low
    ensures Inv(CloseUpTo(s, o, n)) && Untouched(s, CloseUpTo(s, o, n), o, low)
    decreases n
  {
    if n == 0 {
      forall b | 0 <= b < FDS ensures SameSlot(s.tables[o], s.tables[o], b) {
      }
    } else {
      var s1 := CloseUpTo(s, o, n - 1);
      CloseUpToKeeps(s, o, n - 1, low);
      CloseFdInv(s1, o, n - 1);
      if Live(s1.tables[o], n - 1) {
        CloseSlots(s1, o, n - 1);
      } else {
        forall b | 0 <= b < FDS ensures SameSlot(s1.tables[o], s1.tables[o], b) {
        }
      }
      forall b | 0 <= b < FDS && b !in low ensures SameSlot(s.tables[o], CloseUpTo(s, o, n).tables[o], b) {
        assert SameSlot(s.tables[o], s1.tables[o], b);
        assert SameSlot(s1.tables[o], CloseUpTo(s, o, n).tables[o], b);
      }
    }
  }

  /** On the serial line descriptors from 3 on stay as they are. */
  lemma SerialAnswer(s: State, o: nat, found: bool, a: bool, b: bool, c: bool)
    requires Inv(s) && o < TASKS
    ensures var r := SetupSerialStdio(s, o, found, a, b, c);
            && Inv(r.0) && Untouched(s, r.0, o, {0, 1, 2}) && PlainStreams(r.0.tables[o])
            && r.1 == (if found && a && b && c then 0 else -1)
            && (r.1 == 0 ==> forall fd | 0 <= fd < 3 :: r.0.tables[o].used[fd])
  {
    CloseUpToInv(s, o, 3);
    CloseUpToKeeps(s, o, 3, {0, 1, 2});
    var s1 := CloseUpTo(s, o, 3);
    ThreeAnswer(s1, o, found, a, b, c);
    UntouchedTwice(s, s1, SetupSerialStdio(s, o, found, a, b, c).0, o, {0, 1, 2}, {0, 1, 2});
    assert {0, 1, 2} + {0, 1, 2} == {0, 1, 2};
  }
}

/** What every step of the descriptor layer and of the pipes keeps, and what follows for all runs. */
module VfsInv {
  import opened Common
  import opened PipeRing
  import opened Vfs
  import opened VfsCount

  ghost predicate TablesOk(s: State) {
    Shaped(s) && forall o | 0 <= o < TASKS :: TableOk(s.tables[o])
  }

  /** The two counts of a pipe are the numbers of open files over all owners that hold its ends, and the pipe is in use
      exactly when there is such a file. */
  ghost predicate PipeCounted(s: State, k: nat)
    requires Shaped(s) && k < PIPES
  {
    var r, w := TotalEnds(s.tables, TASKS, k, ReadEnd), TotalEnds(s.tables, TASKS, k, WriteEnd);
    && (s.pipes[k].used <==> r + w > 0)
    && (s.pipes[k].used ==> s.pipes[k].readers == r && s.pipes[k].writers == w)
  }

  /** Every reference count in the system is exact. */
  ghost predicate Counted(s: State) {
    TablesOk(s) && forall k | 0 <= k < PIPES :: PipeCounted(s, k)
  }

  /** A blocked reader waits for a reason, and whoever removes the reason will find it in the mask; the same for a
      blocked writer. */
  predicate WaitOk(s: State, t: nat)
    requires Shaped(s) && t < TASKS
  {
    match s.tasks[t]
    case Idle => true
    case Ready(Reading(k, n)) => k < PIPES && n > 0
    case Ready(Writing(k, payload, done)) => k < PIPES && done < |payload|
    case Blocked(Reading(k, n)) =>
      && t >= 1 && k < PIPES && n > 0 && s.pipes[k].used && t in s.pipes[k].readWaiters
      && s.pipes[k].ring.count == 0 && s.pipes[k].writers > 0
    case Blocked(Writing(k, payload, done)) =>
      && t >= 1 && k < PIPES && done < |payload| && s.pipes[k].used && t in s.pipes[k].writeWaiters
      && s.pipes[k].ring.count == Size() && s.pipes[k].readers > 0
  }

  ghost predicate Waits(s: State) {
    Shaped(s) && forall t | 0 <= t < TASKS :: WaitOk(s, t)
  }

  ghost predicate Inv(s: State) {
    Counted(s) && Waits(s)
  }

  // ---------------------------------------------------------------- the waiting discipline

  /** Waking is always harmless. */
  lemma WakeOk(s: State, mask: set<nat>)
    requires Waits(s)
    ensures Waits(s.(tasks := Wake(s.tasks, mask)))
  {
    var s' := s.(tasks := Wake(s.tasks, mask));
    forall t | 0 <= t < TASKS ensures WaitOk(s', t) {
      assert WaitOk(s, t);
    }
  }

  lemma PipeCloseWaits(s: State, k: nat, end: End)
    requires Waits(s) && k < PIPES && s.pipes[k].readers >= 0 && s.pipes[k].writers >= 0
    ensures Waits(PipeClose(s, k, end))
  {
    var s' := PipeClose(s, k, end);
    forall t | 0 <= t < TASKS ensures WaitOk(s', t) {
      assert WaitOk(s, t);
    }
  }

  lemma ReadLoopWaits(s: State, t: nat, k: nat, n: nat)
    requires Waits(s) && t < TASKS && !s.tasks[t].Blocked? && k < PIPES && s.pipes[k].used && n > 0
    ensures Waits(ReadLoop(s, t, k, n).0)
  {
    var s' := ReadLoop(s, t, k, n).0;
    forall u | 0 <= u < TASKS ensures WaitOk(s', u) {
      assert WaitOk(s, u);
    }
  }

  lemma AppendWaits(s: State, k: nat, bytes: seq<byte>)
    requires Waits(s) && k < PIPES && s.pipes[k].used && bytes != [] && s.pipes[k].ring.count + |bytes| <= Size()
    ensures Waits(Append(s, k, bytes))
  {
    var s' := Append(s, k, bytes);
    forall u | 0 <= u < TASKS ensures WaitOk(s', u) {
      assert WaitOk(s, u);
    }
  }

  lemma {:induction false} WriteLoopWaits(s: State, t: nat, k: nat, payload: seq<byte>, done: nat)
    requires Waits(s) && t < TASKS && !s.tasks[t].Blocked? && k < PIPES && s.pipes[k].used && done <= |payload|
    requires s.pipes[k].readers >= 0
    ensures Waits(WriteLoop(s, t, k, payload, done).0)
    decreases |payload| - done
  {
    if done < |payload| && s.pipes[k].readers > 0 && s.pipes[k].ring.count < Size() {
      var chunk := Min(|payload| - done, Size() - s.pipes[k].ring.count);
      var s1 := Append(s, k, payload[done..done + chunk]);
      AppendWaits(s, k, payload[done..done + chunk]);
      WriteLoopWaits(s1, t, k, payload, done + chunk);
      LoopBack(s, t, k, payload, done, chunk, WriteLoop(s1, t, k, payload, done + chunk));
    } else {
      WriteStopWaits(s, t, k, payload, done);
    }
  }

  lemma WriteStopWaits(s: State, t: nat, k: nat, payload: seq<byte>, done: nat)
    requires Waits(s) && t < TASKS && !s.tasks[t].Blocked? && k < PIPES && s.pipes[k].used && done <= |payload|
    requires done == |payload| || s.pipes[k].readers == 0 || s.pipes[k].ring.count == Size()
    requires s.pipes[k].readers >= 0
    ensures Waits(WriteLoop(s, t, k, payload, done).0)
  {
    var s' := WriteLoop(s, t, k, payload, done).0;
    forall u | 0 <= u < TASKS ensures WaitOk(s', u) {
      assert WaitOk(s, u);
    }
  }

  lemma UnlistWaits(s: State, t: nat, k: nat, reading: bool)
    requires Waits(s) && t < TASKS && !s.tasks[t].Blocked? && k < PIPES
    ensures Waits(Unlist(s, t, k, reading))
  {
    var s' := Unlist(s, t, k, reading);
    forall u | 0 <= u < TASKS ensures WaitOk(s', u) {
      assert WaitOk(s, u);
    }
  }

  lemma IdleWaits(s: State, t: nat)
    requires Waits(s) && t < TASKS
    ensures Waits(s.(tasks := s.tasks[t := Idle]))
  {
    var s' := s.(tasks := s.tasks[t := Idle]);
    forall u | 0 <= u < TASKS ensures WaitOk(s', u) {
      assert WaitOk(s, u);
    }
  }

  lemma ResumeWaits(s: State, t: nat)
    requires Waits(s) && t < TASKS && forall k | 0 <= k < PIPES && s.pipes[k].used :: s.pipes[k].readers >= 0
    ensures Waits(Resume(s, t).0)
  {
    assert WaitOk(s, t);
    match s.tasks[t]
    case Ready(Reading(k, n)) =>
      UnlistWaits(s, t, k, true);
      if s.pipes[k].used {
        ReadLoopWaits(Unlist(s, t, k, true), t, k, n);
      } else {
        IdleWaits(Unlist(s, t, k, true), t);
      }
    case Ready(Writing(k, payload, done)) =>
      UnlistWaits(s, t, k, false);
      if s.pipes[k].used {
        WriteLoopWaits(Unlist(s, t, k, false), t, k, payload, done);
      } else {
        IdleWaits(Unlist(s, t, k, false), t);
      }
    case _ =>
  }

  // ---------------------------------------------------------------- counting through each operation

  /** Replacing one owner's table moves the number of ends by the difference. */
  lemma SetTable(s: State, o: nat, t: Table, k: int, end: End)
    requires Shaped(s) && o < TASKS && TableShaped(t)
    ensures TotalEnds(s.tables[o := t], TASKS, k, end) ==
            TotalEnds(s.tables, TASKS, k, end) + Ends(t.files, FDS, k, end) - Ends(s.tables[o].files, FDS, k, end)
  {
    TotalEndsUpdate(s.tables, TASKS, o, t, k, end);
  }

  /** A new table with the same pipe ends changes no count. */
  lemma SameEnds(s: State, o: nat, t: Table)
    requires Counted(s) && o < TASKS && TableOk(t)
    requires forall k, end {:trigger Ends(t.files, FDS, k, end)} | 0 <= k < PIPES && end != NoEnd ::
               Ends(t.files, FDS, k, end) == Ends(s.tables[o].files, FDS, k, end)
    ensures Counted(s.(tables := s.tables[o := t]))
  {
    var s' := s.(tables := s.tables[o := t]);
    forall k | 0 <= k < PIPES ensures PipeCounted(s', k) {
      assert PipeCounted(s, k);
      SetTable(s, o, t, k, ReadEnd);
      SetTable(s, o, t, k, WriteEnd);
    }
  }

  lemma PipeInUse(s: State, o: nat, i: nat)
    requires Counted(s) && o < TASKS && i < FDS && s.tables[o].files[i].used && s.tables[o].files[i].pipe != -1
    ensures var f := s.tables[o].files[i];
            && 0 <= f.pipe < PIPES && s.pipes[f.pipe].used
            && (if f.end == ReadEnd then s.pipes[f.pipe].readers > 0 else s.pipes[f.pipe].writers > 0)
  {
    var f := s.tables[o].files[i];
    assert FileOk(f);
    EndsSome(s.tables[o].files, FDS, i);
    TotalEndsAtLeast(s.tables, TASKS, o, f.pipe, f.end);
    assert PipeCounted(s, f.pipe);
  }

  /** How closing a descriptor moves the number of ends of one pipe. */
  lemma CloseFdEnds(s: State, o: nat, fd: int, k: nat, end: End)
    requires Shaped(s) && o < TASKS && TableOk(s.tables[o]) && Live(s.tables[o], fd) && k < PIPES && end != NoEnd
    ensures var f := s.tables[o].files[s.tables[o].file[fd]];
            TotalEnds(s.tables[o := CloseTable(s.tables[o], fd)], TASKS, k, end) ==
            TotalEnds(s.tables, TASKS, k, end) - if LastRef(s.tables[o], fd) then Holds(f, k, end) else 0
  {
    var t, t', i := s.tables[o], CloseTable(s.tables[o], fd), s.tables[o].file[fd];
    SetTable(s, o, t', k, end);
    EndsUpdate(t.files, FDS, i, t'.files[i], k, end);
  }

  lemma CloseFdPipe(s: State, o: nat, fd: int, k: nat)
    requires Counted(s) && o < TASKS && Live(s.tables[o], fd) && k < PIPES
    ensures PipeCounted(CloseFd(s, o, fd), k)
  {
    var i := s.tables[o].file[fd];
    assert PipeCounted(s, k);
    CloseFdEnds(s, o, fd, k, ReadEnd);
    CloseFdEnds(s, o, fd, k, WriteEnd);
    assert FileOk(s.tables[o].files[i]);
    if s.tables[o].files[i].pipe != -1 {
      PipeInUse(s, o, i);
    }
  }

  lemma CloseFdCounted(s: State, o: nat, fd: int)
    requires Counted(s) && o < TASKS
    ensures Counted(CloseFd(s, o, fd))
  {
    if Live(s.tables[o], fd) {
      CloseTableOk(s.tables[o], fd);
      forall k | 0 <= k < PIPES ensures PipeCounted(CloseFd(s, o, fd), k) {
        CloseFdPipe(s, o, fd, k);
      }
    }
  }

  lemma CloseFdWaits(s: State, o: nat, fd: int)
    requires Inv(s) && o < TASKS
    ensures Waits(CloseFd(s, o, fd))
  {
    if Live(s.tables[o], fd) {
      var f := s.tables[o].files[s.tables[o].file[fd]];
      var s1 := s.(tables := s.tables[o := CloseTable(s.tables[o], fd)]);
      TablesWaits(s, s1.tables);
      if 0 <= f.pipe < PIPES {
        PipeInUse(s, o, s.tables[o].file[fd]);
        assert PipeCounted(s, f.pipe);
        PipeCloseWaits(s1, f.pipe, f.end);
      }
    }
  }

  /** Waiting does not look at the descriptor tables. */
  lemma TablesWaits(s: State, tables: seq<Table>)
    requires Waits(s) && |tables| == TASKS && forall o | 0 <= o < TASKS :: TableShaped(tables[o])
    ensures Waits(s.(tables := tables))
  {
    var s' := s.(tables := tables);
    forall t | 0 <= t < TASKS ensures WaitOk(s', t) {
      assert WaitOk(s, t);
    }
  }

  lemma CloseFdInv(s: State, o: nat, fd: int)
    requires Inv(s) && o < TASKS
    ensures Inv(CloseFd(s, o, fd))
  {
    CloseFdCounted(s, o, fd);
    CloseFdWaits(s, o, fd);
  }

  lemma CloseFdTables(s: State, o: nat, fd: int)
    requires Inv(s) && o < TASKS
    ensures var t, t' := s.tables[o], CloseFd(s, o, fd).tables[o];
            && CloseFd(s, o, fd).tables == s.tables[o := t']
            && (forall b | 0 <= b < FDS && b != fd :: t'.used[b] == t.used[b] && t'.file[b] == t.file[b])
            && (0 <= fd < FDS ==> !t'.used[fd])
  {
  }

  lemma {:induction false} CloseUpToInv(s: State, o: nat, n: nat)
    requires Inv(s) && o < TASKS && n <= FDS
    ensures Inv(CloseUpTo(s, o, n))
    ensures CloseUpTo(s, o, n).tables == s.tables[o := CloseUpTo(s, o, n).tables[o]]
    ensures forall fd | 0 <= fd < FDS ::
              CloseUpTo(s, o, n).tables[o].used[fd] == (fd >= n && s.tables[o].used[fd])
    decreases n
  {
    if n > 0 {
      CloseUpToInv(s, o, n - 1);
      CloseFdInv(CloseUpTo(s, o, n - 1), o, n - 1);
      CloseFdTables(CloseUpTo(s, o, n - 1), o, n - 1);
    }
  }

  /** A table without descriptors has no open files either. */
  lemma NothingOpen(t: Table)
    requires TableOk(t) && forall fd | 0 <= fd < FDS :: !t.used[fd]
    ensures forall i | 0 <= i < FDS :: t.files[i] == FreeFile()
  {
    forall i | 0 <= i < FDS ensures t.files[i] == FreeFile() {
      NamesNone(t, FDS, i);
      assert FileOk(t.files[i]);
    }
  }

  /** Resetting an owner leaks nothing: afterwards it has no descriptor and no open file, no other owner is touched, and
      every reference count in the system is still exact. */
  lemma ResetInv(s: State, o: nat)
    requires Inv(s) && o < TASKS
    ensures Inv(Reset(s, o)) && Reset(s, o).tables == s.tables[o := EmptyTable()]
  {
    var s1 := CloseUpTo(s, o, FDS);
    CloseUpToInv(s, o, FDS);
    NothingOpen(s1.tables[o]);
    EmptyTableOk();
    forall k, end | 0 <= k < PIPES && end != NoEnd
      ensures Ends(EmptyTable().files, FDS, k, end) == Ends(s1.tables[o].files, FDS, k, end)
    {
      EndsNone(EmptyTable().files, FDS, k, end);
      EndsNone(s1.tables[o].files, FDS, k, end);
    }
    SameEnds(s1, o, EmptyTable());
    TablesWaits(s1, s1.tables[o := EmptyTable()]);
  }

  lemma OpenInv(s: State, o: nat, found: bool, good: bool)
    requires Inv(s) && o < TASKS
    ensures Inv(Open(s, o, found, good).0)
  {
    var t := s.tables[o];
    var fd, i := FreeSlot(t.used, 0), FreeSlot(FilesUsed(t.files), 0);
    if found && fd >= 0 && i >= 0 && good {
      var f := File(true, 1, -1, NoEnd);
      FreeSlotIs(t.used, 0);
      FreeSlotIs(FilesUsed(t.files), 0);
      InstallOk(t, fd, i, f);
      forall k, end | 0 <= k < PIPES && end != NoEnd
        ensures Ends(Install(t, fd, i, f).files, FDS, k, end) == Ends(t.files, FDS, k, end)
      {
        EndsUpdate(t.files, FDS, i, f, k, end);
      }
      SameEnds(s, o, Install(t, fd, i, f));
      TablesWaits(s, s.tables[o := Install(t, fd, i, f)]);
    }
  }

  lemma ShareInv(s: State, o: nat, fd: nat, i: nat)
    requires Inv(s) && o < TASKS && fd < FDS && i < FDS && !s.tables[o].used[fd] && s.tables[o].files[i].used
    ensures Inv(s.(tables := s.tables[o := Share(s.tables[o], fd, i)]))
  {
    var t := s.tables[o];
    ShareOk(t, fd, i);
    forall k, end | 0 <= k < PIPES && end != NoEnd
      ensures Ends(Share(t, fd, i).files, FDS, k, end) == Ends(t.files, FDS, k, end)
    {
      EndsUpdate(t.files, FDS, i, t.files[i].(refs := t.files[i].refs + 1), k, end);
    }
    SameEnds(s, o, Share(t, fd, i));
    TablesWaits(s, s.tables[o := Share(t, fd, i)]);
  }

  lemma DupInv(s: State, o: nat, fd: int)
    requires Inv(s) && o < TASKS
    ensures Inv(Dup(s, o, fd).0)
  {
    var t := s.tables[o];
    if Live(t, fd) && FreeSlot(t.used, 0) >= 0 {
      FreeSlotIs(t.used, 0);
      ShareInv(s, o, FreeSlot(t.used, 0), t.file[fd]);
    }
  }

  /** Closing another descriptor never frees the open file that a live descriptor names. */
  lemma StillOpen(s: State, o: nat, fd: nat, other: nat)
    requires Inv(s) && o < TASKS && other < FDS && Live(s.tables[o], fd) && fd != other
    ensures var t' := CloseFd(s, o, other).tables[o];
            Live(t', fd) && t'.file[fd] == s.tables[o].file[fd] && !t'.used[other]
  {
    CloseFdInv(s, o, other);
    CloseFdTables(s, o, other);
  }

  lemma Dup2Inv(s: State, o: nat, oldfd: int, newfd: int)
    requires Inv(s) && o < TASKS
    ensures Inv(Dup2(s, o, oldfd, newfd).0)
  {
    if Live(s.tables[o], oldfd) && 0 <= newfd < FDS && oldfd != newfd {
      var s1 := if s.tables[o].used[newfd] then CloseFd(s, o, newfd) else s;
      StillOpen(s, o, oldfd, newfd);
      CloseFdInv(s, o, newfd);
      ShareInv(s1, o, newfd, s.tables[o].file[oldfd]);
    }
  }

  /** What a successful dup2 leaves: both descriptors name the same open file, and no other descriptor has moved. */
  lemma Dup2Result(s: State, o: nat, oldfd: int, newfd: int)
    requires Inv(s) && o < TASKS
    ensures var r := Dup2(s, o, oldfd, newfd);
            && (r.1 == newfd >= 0 <==> Live(s.tables[o], oldfd) && 0 <= newfd < FDS)
            && (r.1 >= 0 ==>
                  var t, t' := s.tables[o], r.0.tables[o];
                  && Live(t', oldfd) && Live(t', newfd) && t'.file[newfd] == t'.file[oldfd] == t.file[oldfd]
                  && forall b | 0 <= b < FDS && b != newfd :: t'.used[b] == t.used[b] && t'.file[b] == t.file[b])
  {
    if Live(s.tables[o], oldfd) && 0 <= newfd < FDS && oldfd != newfd {
      StillOpen(s, o, oldfd, newfd);
      CloseFdTables(s, o, newfd);
    }
  }
}

/** The remaining operations of the descriptor layer, all runs from boot, and what holds in every reachable state. */
module VfsRuns {
  import opened Common
  import opened PipeRing
  import opened Vfs
  import opened VfsCount
  import opened VfsInv

  // ---------------------------------------------------------------- making a pipe

  lemma NewPipeWaits(s: State, k: nat, tables: seq<Table>)
    requires Waits(s) && k < PIPES && !s.pipes[k].used
    requires |tables| == TASKS && forall o | 0 <= o < TASKS :: TableShaped(tables[o])
    ensures Waits(s.(tables := tables, pipes := s.pipes[k := NewPipe(s.pipes[k])]))
  {
    var s' := s.(tables := tables, pipes := s.pipes[k := NewPipe(s.pipes[k])]);
    forall t | 0 <= t < TASKS ensures WaitOk(s', t) {
      assert WaitOk(s, t);
    }
  }

  lemma NewPipeCounted(s: State, o: nat, rfd: nat, wfd: nat, rof: nat, wof: nat, k: nat)
    requires Counted(s) && o < TASKS && k < PIPES && !s.pipes[k].used
    requires rfd < FDS && wfd < FDS && rfd != wfd && rof < FDS && wof < FDS && rof != wof
    requires var t := s.tables[o]; !t.used[rfd] && !t.used[wfd] && !t.files[rof].used && !t.files[wof].used
    ensures var t1 := Install(s.tables[o], rfd, rof, File(true, 1, k, ReadEnd));
            var t2 := Install(t1, wfd, wof, File(true, 1, k, WriteEnd));
            Counted(s.(tables := s.tables[o := t2], pipes := s.pipes[k := NewPipe(s.pipes[k])]))
  {
    var t, fr, fw := s.tables[o], File(true, 1, k, ReadEnd), File(true, 1, k, WriteEnd);
    var t1 := Install(t, rfd, rof, fr);
    var t2 := Install(t1, wfd, wof, fw);
    var s' := s.(tables := s.tables[o := t2], pipes := s.pipes[k := NewPipe(s.pipes[k])]);
    InstallOk(t, rfd, rof, fr);
    InstallOk(t1, wfd, wof, fw);
    forall j | 0 <= j < PIPES ensures PipeCounted(s', j) {
      assert PipeCounted(s, j);
      SetTable(s, o, t2, j, ReadEnd);
      SetTable(s, o, t2, j, WriteEnd);
      EndsUpdate(t.files, FDS, rof, fr, j, ReadEnd);
      EndsUpdate(t.files, FDS, rof, fr, j, WriteEnd);
      EndsUpdate(t1.files, FDS, wof, fw, j, ReadEnd);
      EndsUpdate(t1.files, FDS, wof, fw, j, WriteEnd);
    }
  }

  lemma MakePipeInv(s: State, o: nat)
    requires Inv(s) && o < TASKS
    ensures Inv(MakePipe(s, o).0)
  {
    var t := s.tables[o];
    var k, rfd, rof := FreeSlot(FreePipe(s.pipes), 0), FreeSlot(t.used, 0), FreeSlot(FilesUsed(t.files), 0);
    FreeSlotIs(FreePipe(s.pipes), 0);
    FreeSlotIs(t.used, 0);
    FreeSlotIs(FilesUsed(t.files), 0);
    if k >= 0 && rfd >= 0 && rof >= 0 {
      var wfd, wof := FreeSlot(t.used[rfd := true], 0), FreeSlot(FilesUsed(t.files)[rof := true], 0);
      FreeSlotIs(t.used[rfd := true], 0);
      FreeSlotIs(FilesUsed(t.files)[rof := true], 0);
      if wfd >= 0 && wof >= 0 {
        NewPipeCounted(s, o, rfd, wfd, rof, wof, k);
        NewPipeWaits(s, k, MakePipe(s, o).0.tables);
      }
    }
  }

  /** Making a pipe fails only for lack of a pipe or of two descriptors, never for lack of open files. */
  lemma MakePipeSucceeds(s: State, o: nat)
    requires Inv(s) && o < TASKS
    ensures var t, rfd := s.tables[o], FreeSlot(s.tables[o].used, 0);
            MakePipe(s, o).1 >= 0 <==>
            FreeSlot(FreePipe(s.pipes), 0) >= 0 && rfd >= 0 && FreeSlot(t.used[rfd := true], 0) >= 0
  {
    var t, rfd := s.tables[o], FreeSlot(s.tables[o].used, 0);
    if rfd >= 0 && FreeSlot(t.used[rfd := true], 0) >= 0 {
      TwoOpenFilesAvailable(t);
    }
  }

  // ---------------------------------------------------------------- cloning

  lemma {:induction false} CloneNames(src: Table, limit: nat, n: nat, i: nat)
    requires TableOk(src) && limit <= FDS && n <= FDS && i < FDS
    ensures Names(CloneTable(src, limit), n, i) == Names(src, if n < limit then n else limit, i)
    decreases n
  {
    if n > 0 {
      CloneNames(src, limit, n - 1, i);
    }
  }

  lemma {:induction false} NamesMonotone(t: Table, m: nat, n: nat, i: int)
    requires TableShaped(t) && m <= n <= FDS
    ensures Names(t, m, i) <= Names(t, n, i)
    decreases n
  {
    if m < n {
      NamesMonotone(t, m, n - 1, i);
    }
  }

  lemma CloneTableOk(src: Table, limit: nat)
    requires TableOk(src) && limit <= FDS
    ensures TableOk(CloneTable(src, limit))
  {
    var t := CloneTable(src, limit);
    forall fd | 0 <= fd < FDS && t.used[fd] ensures 0 <= t.file[fd] < FDS && t.files[t.file[fd]].used {
      NamesSome(src, limit, fd);
    }
    forall i | 0 <= i < FDS ensures FileOk(t.files[i]) && t.files[i].refs == Names(t, FDS, i) {
      CloneNames(src, limit, FDS, i);
      NamesMonotone(src, limit, FDS, i);
      assert FileOk(src.files[i]);
    }
  }

  lemma CloneCounted(s: State, dst: nat, src: nat, limit: nat)
    requires Counted(s) && dst < TASKS && src < TASKS && dst != src && limit <= FDS && s.tables[dst] == EmptyTable()
    ensures var t := CloneTable(s.tables[src], limit);
            Counted(s.(tables := s.tables[dst := t], pipes := AddEnds(s.pipes, t.files, FDS)))
  {
    var t := CloneTable(s.tables[src], limit);
    var s' := s.(tables := s.tables[dst := t], pipes := AddEnds(s.pipes, t.files, FDS));
    CloneTableOk(s.tables[src], limit);
    forall k | 0 <= k < PIPES ensures PipeCounted(s', k) {
      assert PipeCounted(s, k);
      SetTable(s, dst, t, k, ReadEnd);
      SetTable(s, dst, t, k, WriteEnd);
      EndsNone(EmptyTable().files, FDS, k, ReadEnd);
      EndsNone(EmptyTable().files, FDS, k, WriteEnd);
      EndsFewer(s.tables[src].files, t.files, FDS, k, ReadEnd);
      EndsFewer(s.tables[src].files, t.files, FDS, k, WriteEnd);
      TotalEndsAtLeast(s.tables, TASKS, src, k, ReadEnd);
      TotalEndsAtLeast(s.tables, TASKS, src, k, WriteEnd);
    }
  }

  lemma AddEndsWaits(s: State, files: seq<File>, tables: seq<Table>)
    requires Waits(s) && |files| == FDS && |tables| == TASKS && forall o | 0 <= o < TASKS :: TableShaped(tables[o])
    ensures Waits(s.(tables := tables, pipes := AddEnds(s.pipes, files, FDS)))
  {
    var s' := s.(tables := tables, pipes := AddEnds(s.pipes, files, FDS));
    forall t | 0 <= t < TASKS ensures WaitOk(s', t) {
      assert WaitOk(s, t);
    }
  }

  predicate SameFile(f: File, g: File) {
    f.used && g.used && f.pipe == g.pipe && f.end == g.end
  }

  /** A clone gives the new owner exactly the live descriptors below the limit, under the same numbers, and leaves the
      source as it was. */
  lemma CloneInv(s: State, dst: nat, src: nat, limit: int)
    requires Inv(s) && dst < TASKS && src < TASKS
    ensures Inv(Clone(s, dst, src, limit))
    ensures dst != src && limit >= 0 ==>
              var t, t' := s.tables[src], Clone(s, dst, src, limit).tables[dst];
              && Clone(s, dst, src, limit).tables == s.tables[dst := t']
              && forall fd | 0 <= fd < FDS ::
                   && t'.used[fd] == (fd < limit && t.used[fd])
                   && (t'.used[fd] ==>
                         t'.file[fd] == t.file[fd] && SameFile(t'.files[t'.file[fd]], t.files[t.file[fd]]))
  {
    if dst != src && limit >= 0 {
      var s1 := Reset(s, dst);
      ResetInv(s, dst);
      CloneCounted(s1, dst, src, Limit(limit));
      CloneTableOk(s1.tables[src], Limit(limit));
      AddEndsWaits(s1, CloneTable(s1.tables[src], Limit(limit)).files,
                   s1.tables[dst := CloneTable(s1.tables[src], Limit(limit))]);
    }
  }

  // ---------------------------------------------------------------- standard streams

  lemma OpenThreeInv(s: State, o: nat, found: bool, a: bool, b: bool, c: bool)
    requires Inv(s) && o < TASKS
    ensures Inv(OpenThree(s, o, found, a, b, c).0)
  {
    var r0 := Open(s, o, found, a);
    OpenInv(s, o, found, a);
    var r1 := Open(r0.0, o, found, b);
    OpenInv(r0.0, o, found, b);
    OpenInv(r1.0, o, found, c);
  }

  /** The lowest free descriptor is the one that open returns. */
  lemma OpenAt(s: State, o: nat, found: bool, good: bool, fd: nat)
    requires Inv(s) && o < TASKS && fd < FDS && !s.tables[o].used[fd]
    requires forall k | 0 <= k < fd :: s.tables[o].used[k]
    ensures var r := Open(s, o, found, good);
            && Inv(r.0) && r.1 == (if found && good then fd else -1)
            && (found && good ==> r.0.tables[o].used == s.tables[o].used[fd := true])
  {
    FreeSlotIs(s.tables[o].used, 0);
    OpenFileAvailable(s.tables[o]);
    OpenInv(s, o, found, good);
  }

  /** With descriptors 0, 1 and 2 free, three opens give 0, 1 and 2 exactly when all of them succeed. */
  lemma OpenThreeResult(s: State, o: nat, found: bool, a: bool, b: bool, c: bool)
    requires Inv(s) && o < TASKS && forall fd | 0 <= fd < 3 :: !s.tables[o].used[fd]
    ensures OpenThree(s, o, found, a, b, c).1 == if found && a && b && c then 0 else -1
  {
    OpenAt(s, o, found, a, 0);
    var r0 := Open(s, o, found, a);
    if found && a {
      OpenAt(r0.0, o, found, b, 1);
      var r1 := Open(r0.0, o, found, b);
      if b {
        OpenAt(r1.0, o, found, c, 2);
      }
    }
  }

  lemma SetupStdioResult(s: State, o: nat, found: bool, a: bool, b: bool, c: bool)
    requires Inv(s) && o < TASKS
    ensures Inv(SetupStdio(s, o, found, a, b, c).0)
    ensures SetupStdio(s, o, found, a, b, c).1 == if found && a && b && c then 0 else -1
  {
    ResetInv(s, o);
    OpenThreeInv(Reset(s, o), o, found, a, b, c);
    OpenThreeResult(Reset(s, o), o, found, a, b, c);
  }

  lemma SetupSerialStdioResult(s: State, o: nat, found: bool, a: bool, b: bool, c: bool)
    requires Inv(s) && o < TASKS
    ensures Inv(SetupSerialStdio(s, o, found, a, b, c).0)
    ensures SetupSerialStdio(s, o, found, a, b, c).1 == if found && a && b && c then 0 else -1
  {
    CloseUpToInv(s, o, 3);
    OpenThreeInv(CloseUpTo(s, o, 3), o, found, a, b, c);
    OpenThreeResult(CloseUpTo(s, o, 3), o, found, a, b, c);
  }

  // ---------------------------------------------------------------- every run

  ghost predicate SameEndCounts(s: State, s': State) {
    && Shaped(s) && Shaped(s') && s'.tables == s.tables
    && forall k | 0 <= k < PIPES ::
         s'.pipes[k].used == s.pipes[k].used && s'.pipes[k].readers == s.pipes[k].readers
         && s'.pipes[k].writers == s.pipes[k].writers
  }

  /** Pipe traffic changes no reference count. */
  lemma TrafficCounted(s: State, s': State)
    requires Counted(s) && SameEndCounts(s, s')
    ensures Counted(s')
  {
    forall k | 0 <= k < PIPES ensures PipeCounted(s', k) {
      assert PipeCounted(s, k);
    }
  }

  lemma {:induction false} WriteLoopCounts(s: State, t: nat, k: nat, payload: seq<byte>, done: nat)
    requires Shaped(s) && t < TASKS && k < PIPES && done <= |payload|
    ensures SameEndCounts(s, WriteLoop(s, t, k, payload, done).0)
    decreases |payload| - done
  {
    if done < |payload| && s.pipes[k].readers != 0 && s.pipes[k].ring.count < Size() {
      var chunk := Min(|payload| - done, Size() - s.pipes[k].ring.count);
      var s1 := Append(s, k, payload[done..done + chunk]);
      WriteLoopCounts(s1, t, k, payload, done + chunk);
      LoopBack(s, t, k, payload, done, chunk, WriteLoop(s1, t, k, payload, done + chunk));
    }
  }

  lemma CountedReaders(s: State)
    requires Counted(s)
    ensures forall k | 0 <= k < PIPES && s.pipes[k].used :: s.pipes[k].readers >= 0 && s.pipes[k].writers >= 0
  {
    forall k | 0 <= k < PIPES && s.pipes[k].used ensures s.pipes[k].readers >= 0 && s.pipes[k].writers >= 0 {
      assert PipeCounted(s, k);
    }
  }

  lemma ReadInv(s: State, t: nat, o: nat, fd: int, n: nat)
    requires Inv(s) && t < TASKS && o < TASKS && s.tasks[t].Idle?
    ensures Inv(StartRead(s, t, o, fd, n).0)
  {
    var f := PipeEnd(s, o, fd);
    if f.Some? && n > 0 {
      ReadLoopWaits(s, t, f.value.pipe, n);
      TrafficCounted(s, StartRead(s, t, o, fd, n).0);
    }
  }

  lemma WriteInv(s: State, t: nat, o: nat, fd: int, payload: seq<byte>)
    requires Inv(s) && t < TASKS && o < TASKS && s.tasks[t].Idle?
    ensures Inv(StartWrite(s, t, o, fd, payload).0)
  {
    CountedReaders(s);
    var f := PipeEnd(s, o, fd);
    if f.Some? {
      WriteLoopWaits(s, t, f.value.pipe, payload, 0);
      WriteLoopCounts(s, t, f.value.pipe, payload, 0);
      TrafficCounted(s, StartWrite(s, t, o, fd, payload).0);
    }
  }

  lemma ResumeInv(s: State, t: nat)
    requires Inv(s) && t < TASKS
    ensures Inv(Resume(s, t).0)
  {
    CountedReaders(s);
    ResumeWaits(s, t);
    match s.tasks[t]
    case Ready(Writing(k, payload, done)) =>
      if k < PIPES && done <= |payload| && s.pipes[k].used {
        WriteLoopCounts(Unlist(s, t, k, false), t, k, payload, done);
      }
      TrafficCounted(s, Resume(s, t).0);
    case _ =>
      TrafficCounted(s, Resume(s, t).0);
  }

  /** Every step of every task keeps the whole invariant. */
  lemma StepInv(s: State, op: Op)
    requires Inv(s)
    ensures Inv(Step(s, op).0)
  {
    if Sensible(op) {
      match op
      case OpenOp(o, found, good) => OpenInv(s, o, found, good);
      case CloseOp(o, fd) => CloseFdInv(s, o, fd);
      case DupOp(o, fd) => DupInv(s, o, fd);
      case Dup2Op(o, fd, newfd) => Dup2Inv(s, o, fd, newfd);
      case PipeOp(o) => MakePipeInv(s, o);
      case ResetOp(o) => ResetInv(s, o);
      case CloneOp(dst, src, limit) => CloneInv(s, dst, src, limit);
      case ThreeOp(o, found, a, b, c) => OpenThreeInv(s, o, found, a, b, c);
      case SerialOp(o, found, a, b, c) => SetupSerialStdioResult(s, o, found, a, b, c);
      case ReadOp(t, o, fd, n) =>
        if s.tasks[t].Idle? {
          ReadInv(s, t, o, fd, n);
        }
      case WriteOp(t, o, fd, payload) =>
        if s.tasks[t].Idle? {
          WriteInv(s, t, o, fd, payload);
        }
      case ResumeOp(t) => ResumeInv(s, t);
      case WakeOp(t) =>
        WakeOk(s, {t});
        TrafficCounted(s, Step(s, op).0);
      case ExitOp(t) =>
        IdleWaits(s, t);
        TrafficCounted(s, Step(s, op).0);
    }
  }

  lemma BootInv()
    ensures Inv(Boot())
  {
    var s := Boot();
    EmptyTableOk();
    forall k | 0 <= k < PIPES ensures PipeCounted(s, k) {
      NoEnds(s.tables, TASKS, k, ReadEnd);
      NoEnds(s.tables, TASKS, k, WriteEnd);
    }
  }

  lemma {:induction false} NoEnds(tables: seq<Table>, n: nat, k: int, end: End)
    requires n <= |tables| && forall o | 0 <= o < n :: tables[o] == EmptyTable()
    ensures TotalEnds(tables, n, k, end) == 0
    decreases n
  {
    if n > 0 {
      NoEnds(tables, n - 1, k, end);
      EndsNone(EmptyTable().files, FDS, k, end);
    }
  }

  /** The state after any sequence of steps, of any tasks, in any order, and what could be seen of them at the pipes. */
  ghost function Run(s: State, ops: seq<Op>): (r: (State, seq<Event>))
    requires Inv(s)
    ensures Inv(r.0) && |r.1| == |ops|
    decreases |ops|
  {
    if ops == [] then (s, [])
    else
      var before := Run(s, ops[..|ops| - 1]);
      StepInv(before.0, ops[|ops| - 1]);
      var step := Step(before.0, ops[|ops| - 1]);
      (step.0, before.1 + [step.1])
  }

  /** Every state that any interleaving reaches from boot satisfies the invariant: all reference counts are exact, every
      ring is in order, and every blocked task has its reason and its bit in the mask. */
  lemma EveryReachableState(ops: seq<Op>)
    ensures Inv(Boot()) && Inv(Run(Boot(), ops).0)
  {
    BootInv();
  }

  /** In every reachable state: nobody is blocked on a pipe that is not in use, and a reader and a writer are never
      blocked on the same pipe. */
  lemma NoDeadlockOnOnePipe(s: State, t: nat, u: nat, k: nat, n: nat, j: nat, payload: seq<byte>, done: nat)
    requires Inv(s) && t < TASKS && u < TASKS
    requires s.tasks[t] == Blocked(Reading(k, n)) && s.tasks[u] == Blocked(Writing(j, payload, done))
    ensures k < PIPES && s.pipes[k].used && j < PIPES && s.pipes[j].used && j != k
  {
    assert WaitOk(s, t) && WaitOk(s, u);
  }

  /** A step that gives a blocked reader something to do also makes it ready. */
  lemma NoLostWakeup(s: State, op: Op, t: nat, k: nat, n: nat)
    requires Inv(s) && t < TASKS && s.tasks[t] == Blocked(Reading(k, n))
    ensures k < PIPES
    ensures var s' := Step(s, op).0;
            s'.tasks[t] == s.tasks[t] ==> s'.pipes[k].used && s'.pipes[k].ring.count == 0 && s'.pipes[k].writers > 0
  {
    StepInv(s, op);
    assert WaitOk(s, t) && WaitOk(Step(s, op).0, t);
  }

  lemma NoLostWriteWakeup(s: State, op: Op, t: nat, k: nat, payload: seq<byte>, done: nat)
    requires Inv(s) && t < TASKS && s.tasks[t] == Blocked(Writing(k, payload, done))
    ensures k < PIPES
    ensures var s' := Step(s, op).0;
            s'.tasks[t] == s.tasks[t] ==>
              s'.pipes[k].used && s'.pipes[k].ring.count == Size() && s'.pipes[k].readers > 0
  {
    StepInv(s, op);
    assert WaitOk(s, t) && WaitOk(Step(s, op).0, t);
  }

  // ---------------------------------------------------------------- one section of a pipe call

  lemma AppendLeaves(s: State, t: nat, k: nat, bytes: seq<byte>)
    requires Shaped(s) && t < TASKS && k < PIPES && s.pipes[k].ring.count + |bytes| <= Size()
    ensures var s' := Append(s, k, bytes);
            && s'.pipes[k].used == s.pipes[k].used && s'.pipes[k].readers == s.pipes[k].readers
            && (forall j | 0 <= j < PIPES && j != k :: s'.pipes[j] == s.pipes[j])
            && (forall u | 0 <= u < TASKS :: SameCall(s'.tasks[u], s.tasks[u]))
  {
  }

  /** A write's section leaves other pipes and other tasks' calls alone; it has stopped because it is finished, because
      nobody reads any more, or to wait with the rest. */
  lemma {:induction false} WriteEnds(s: State, t: nat, k: nat, payload: seq<byte>, done: nat)
    requires Shaped(s) && t < TASKS && k < PIPES && done <= |payload| && s.pipes[k].readers >= 0
    ensures var r := WriteLoop(s, t, k, payload, done);
            && r.0.pipes[k].used == s.pipes[k].used
            && (forall j | 0 <= j < PIPES && j != k :: r.0.pipes[j] == s.pipes[j])
            && (forall u | 0 <= u < TASKS && u != t :: SameCall(r.0.tasks[u], s.tasks[u]))
            && match r.2 {
                 case Returns(v) => r.0.tasks[t] == Idle && v == (if r.1 == |payload| then r.1 else Partial(r.1))
                                    && (r.1 == |payload| || s.pipes[k].readers == 0)
                 case Sleeps => r.0.tasks[t] == Suspended(t, Writing(k, payload, r.1)) && r.1 < |payload|
               }
    decreases |payload| - done
  {
    if done < |payload| && s.pipes[k].readers > 0 && s.pipes[k].ring.count < Size() {
      var chunk := Min(|payload| - done, Size() - s.pipes[k].ring.count);
      var s1 := Append(s, k, payload[done..done + chunk]);
      AppendLeaves(s, t, k, payload[done..done + chunk]);
      WriteEnds(s1, t, k, payload, done + chunk);
      LoopBack(s, t, k, payload, done, chunk, WriteLoop(s1, t, k, payload, done + chunk));
    }
  }

  lemma Onward(content: seq<byte>, payload: seq<byte>, done: nat, next: nat, end: nat)
    requires done <= next <= end <= |payload|
    ensures content + payload[done..end] == content + payload[done..next] + payload[next..end]
  {
    assert payload[done..end] == payload[done..next] + payload[next..end];
  }

  lemma AppendContent(s: State, k: nat, bytes: seq<byte>)
    requires Shaped(s) && k < PIPES && s.pipes[k].ring.count + |bytes| <= Size()
    ensures var p := Append(s, k, bytes).pipes[k];
            p.readers == s.pipes[k].readers && p.ring.Content() == s.pipes[k].ring.Content() + bytes
  {
    PutContent(s.pipes[k].ring, bytes);
  }

  /** Exactly the bytes that a write's section counts have been appended, in order. */
  lemma {:induction false} WriteAppends(s: State, t: nat, k: nat, payload: seq<byte>, done: nat)
    requires Shaped(s) && t < TASKS && k < PIPES && done <= |payload| && s.pipes[k].readers >= 0
    ensures var r := WriteLoop(s, t, k, payload, done);
            r.0.pipes[k].ring.Content() == s.pipes[k].ring.Content() + payload[done..r.1]
    decreases |payload| - done
  {
    if done < |payload| && s.pipes[k].readers > 0 && s.pipes[k].ring.count < Size() {
      WriteAppendsMore(s, t, k, payload, done, Min(|payload| - done, Size() - s.pipes[k].ring.count));
    } else {
      WriteStops(s, t, k, payload, done);
    }
  }

  lemma {:induction false} WriteAppendsMore(s: State, t: nat, k: nat, payload: seq<byte>, done: nat, chunk: nat)
    requires Shaped(s) && t < TASKS && k < PIPES && done < |payload|
    requires s.pipes[k].readers > 0 && s.pipes[k].ring.count < Size()
    requires chunk == Min(|payload| - done, Size() - s.pipes[k].ring.count)
    ensures var r := WriteLoop(s, t, k, payload, done);
            r.0.pipes[k].ring.Content() == s.pipes[k].ring.Content() + payload[done..r.1]
    decreases |payload| - done, 0
  {
    var s1 := Append(s, k, payload[done..done + chunk]);
    AppendContent(s, k, payload[done..done + chunk]);
    WriteAppends(s1, t, k, payload, done + chunk);
    var w := WriteLoop(s1, t, k, payload, done + chunk);
    Onward(s.pipes[k].ring.Content(), payload, done, done + chunk, w.1);
    LoopBack(s, t, k, payload, done, chunk, w);
  }

  lemma WriteStops(s: State, t: nat, k: nat, payload: seq<byte>, done: nat)
    requires Shaped(s) && t < TASKS && k < PIPES && done <= |payload|
    requires done == |payload| || s.pipes[k].readers == 0 || s.pipes[k].ring.count == Size()
    ensures var r := WriteLoop(s, t, k, payload, done);
            && r.1 == done && r.0.pipes[k].ring == s.pipes[k].ring
            && s.pipes[k].ring.Content() == s.pipes[k].ring.Content() + payload[done..done]
  {
  }

  /** The call a task is in does not change unless it ends. */
  predicate SameCall(after: Phase, before: Phase) {
    after.Idle? || (!before.Idle? && after.call == before.call)
  }

  /** What a read's section does: take the oldest bytes of the pipe, as many as were asked for or as there are; it
      returns nothing only when the pipe is empty and no writer is left. */
  lemma ReadTakes(s: State, t: nat, k: nat, n: nat)
    requires Waits(s) && t < TASKS && k < PIPES && s.pipes[k].used && n > 0
    ensures var r := ReadLoop(s, t, k, n);
            && s.pipes[k].ring.Content() == r.1 + r.0.pipes[k].ring.Content()
            && r.0.pipes[k].used == s.pipes[k].used
            && (forall j | 0 <= j < PIPES && j != k :: r.0.pipes[j] == s.pipes[j])
            && (forall u | 0 <= u < TASKS && u != t :: SameCall(r.0.tasks[u], s.tasks[u]))
            && match r.2 {
                 case Returns(v) => r.0.tasks[t] == Idle && v == |r.1| == Min(n, s.pipes[k].ring.count)
                                    && (r.1 == [] <==> s.pipes[k].ring.count == 0 && s.pipes[k].writers <= 0)
                 case Sleeps => r.0.tasks[t] == Suspended(t, Reading(k, n)) && r.1 == [] && s.pipes[k].writers > 0
               }
  {
    if s.pipes[k].ring.count > 0 {
      TakeContent(s.pipes[k].ring, Min(n, s.pipes[k].ring.count));
    }
  }
}

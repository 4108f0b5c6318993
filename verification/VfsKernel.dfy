/** The kernel's own form of the descriptor layer: an object whose tables are updated by loops, proved against the
    functions of module Vfs. */
module VfsKernel {
  import opened Common
  import opened PipeRing
  import opened Vfs
  import opened VfsCount
  import opened VfsInv
  import opened VfsRuns
  import VfsAnswers
  import VfsTables

  // ---------------------------------------------------------------- the cloning loop, one open file at a time

  /** The copies made so far. */
  function FilesSoFar(files: seq<File>, n: nat): (r: seq<File>)
    requires |files| == FDS && n <= FDS
    ensures |r| == FDS
  {
    seq(FDS, j requires 0 <= j < FDS => if j < n then files[j] else FreeFile())
  }

  lemma FilesSoFarStart(files: seq<File>)
    requires |files| == FDS
    ensures EmptyTable() == EmptyTable().(files := FilesSoFar(files, 0)) && FilesSoFar(files, FDS) == files
  {
    assert EmptyTable().files == FilesSoFar(files, 0);
  }

  lemma FilesSoFarNext(files: seq<File>, n: nat)
    requires |files| == FDS && n < FDS
    ensures FilesSoFar(files, n + 1) == FilesSoFar(files, n)[n := files[n]]
    ensures files[n] == FreeFile() ==> FilesSoFar(files, n + 1) == FilesSoFar(files, n)
  {
  }

  /** Count the pipe end that one open file holds. */
  function AddEnd(pipes: seq<Pipe>, f: File): (r: seq<Pipe>)
    requires |pipes| == PIPES
  {
    if !f.used || !(0 <= f.pipe < PIPES) || !pipes[f.pipe].used then pipes
    else if f.end == ReadEnd then pipes[f.pipe := pipes[f.pipe].(readers := pipes[f.pipe].readers + 1)]
    else if f.end == WriteEnd then pipes[f.pipe := pipes[f.pipe].(writers := pipes[f.pipe].writers + 1)]
    else pipes
  }

  lemma AddNoEnds(pipes: seq<Pipe>, files: seq<File>)
    requires |pipes| == PIPES && |files| == FDS
    ensures AddEnds(pipes, files, 0) == pipes
  {
  }

  lemma AddEndsNext(pipes: seq<Pipe>, files: seq<File>, n: nat)
    requires |pipes| == PIPES && |files| == FDS && n < FDS
    ensures AddEnds(pipes, files, n + 1) == AddEnd(AddEnds(pipes, files, n), files[n])
  {
  }

  lemma CloneFile(src: Table, n: nat, i: nat)
    requires TableOk(src) && n <= FDS && i < FDS
    ensures CloneTable(src, n).files[i] ==
            if Names(src, n, i) != 0 then src.files[i].(refs := Names(src, n, i)) else FreeFile()
    ensures Names(src, n, i) != 0 ==> src.files[i].used
  {
    NamesMonotone(src, n, FDS, i);
    assert FileOk(src.files[i]);
  }

  lemma UpdateTwice<T>(s: seq<T>, i: nat, x: T, y: T)
    requires i < |s|
    ensures s[i := x][i := y] == s[i := y]
  {
  }

  class Kernel {
    var tables: seq<Table>
    var pipes: seq<Pipe>
    var tasks: seq<Phase>

    ghost function View(): State
      reads this
    {
      State(tables, pipes, tasks)
    }

    ghost predicate Valid()
      reads this
    {
      Inv(View())
    }

    constructor ()
      ensures Valid() && View() == Boot()
    {
      tables, pipes, tasks := Boot().tables, Boot().pipes, Boot().tasks;
      BootInv();
    }

    method AllocFdSlot(owner: nat) returns (fd: int)
      requires Shaped(View()) && owner < TASKS
      ensures fd == FreeSlot(tables[owner].used, 0)
    {
      for i := 0 to FDS
        invariant FreeSlot(tables[owner].used, 0) == FreeSlot(tables[owner].used, i)
      {
        if !tables[owner].used[i] {
          return i;
        }
      }
      return -1;
    }

    method AllocOpenFile(owner: nat) returns (of: int)
      requires Shaped(View()) && owner < TASKS
      ensures of == FreeSlot(FilesUsed(tables[owner].files), 0)
    {
      ghost var used := FilesUsed(tables[owner].files);
      for i := 0 to FDS
        invariant FreeSlot(used, 0) == FreeSlot(used, i)
      {
        if !tables[owner].files[i].used {
          return i;
        }
      }
      return -1;
    }

    method FindPipe() returns (k: int)
      requires Shaped(View())
      ensures k == FreeSlot(FreePipe(pipes), 0)
    {
      ghost var used := FreePipe(pipes);
      for i := 0 to PIPES
        invariant FreeSlot(used, 0) == FreeSlot(used, i)
      {
        if !pipes[i].used {
          return i;
        }
      }
      return -1;
    }

    /** Wake every task in a mask, from task 1 on. */
    method WakeMask(mask: set<nat>)
      requires Shaped(View())
      modifies this`tasks
      ensures tasks == Wake(old(tasks), mask)
    {
      for i := 1 to TASKS
        invariant |tasks| == TASKS
        invariant forall t | 0 <= t < TASKS :: tasks[t] == if t < i then Wake(old(tasks), mask)[t] else old(tasks)[t]
      {
        if i in mask && tasks[i].Blocked? {
          tasks := tasks[i := Ready(tasks[i].call)];
        }
      }
    }

    /** Drop one end of a pipe and wake whom that concerns. */
    method ClosePipeEnd(k: nat, end: End)
      requires Shaped(View()) && k < PIPES
      modifies this`pipes, this`tasks
      ensures View() == PipeClose(old(View()), k, end)
    {
      if !pipes[k].used {
        return;
      }
      if end == ReadEnd && pipes[k].readers > 0 {
        pipes := pipes[k := pipes[k].(readers := pipes[k].readers - 1)];
      }
      if end == WriteEnd && pipes[k].writers > 0 {
        pipes := pipes[k := pipes[k].(writers := pipes[k].writers - 1)];
      }
      if pipes[k].readers == 0 {
        WakeMask(pipes[k].writeWaiters);
        pipes := pipes[k := pipes[k].(writeWaiters := {})];
      }
      if pipes[k].writers == 0 {
        WakeMask(pipes[k].readWaiters);
        pipes := pipes[k := pipes[k].(readWaiters := {})];
      }
      if pipes[k].readers == 0 && pipes[k].writers == 0 {
        pipes := pipes[k := pipes[k].(readWaiters := {}, writeWaiters := {}, used := false)];
      }
    }

    method CloseFdLocked(owner: nat, fd: int) returns (ret: int)
      requires Shaped(View()) && owner < TASKS
      modifies this
      ensures View() == CloseFd(old(View()), owner, fd)
      ensures old(Counted(View())) ==> (ret == 0 <==> old(Live(tables[owner], fd)))
    {
      if !Live(tables[owner], fd) {
        return -1;
      }
      var t := tables[owner];
      var f := t.files[t.file[fd]];
      var last := f.refs - 1 <= 0;
      if Counted(View()) && f.pipe != -1 {
        PipeInUse(View(), owner, t.file[fd]);
      }
      tables := tables[owner := Table(t.used[fd := false], t.file[fd := -1],
                                      t.files[t.file[fd] := if last then FreeFile() else f.(refs := f.refs - 1)])];
      ret := 0;
      if last && 0 <= f.pipe < PIPES {
        ret := if pipes[f.pipe].used then 0 else -1;
        ClosePipeEnd(f.pipe, f.end);
      }
    }

    /** Close the descriptors below n that are in use. */
    method CloseBelow(owner: nat, n: nat)
      requires Shaped(View()) && owner < TASKS && n <= FDS
      modifies this
      ensures View() == CloseUpTo(old(View()), owner, n)
    {
      ghost var s := View();
      for i := 0 to n
        invariant Shaped(View()) && View() == CloseUpTo(s, owner, i)
      {
        if tables[owner].used[i] {
          var ret := CloseFdLocked(owner, i);
        }
      }
    }

    /** Close everything an owner has, then clear its table slot by slot. */
    method TaskReset(owner: nat)
      requires Shaped(View()) && owner < TASKS
      modifies this
      ensures View() == Reset(old(View()), owner)
    {
      CloseBelow(owner, FDS);
      ghost var closed, pipes1, tasks1 := tables, pipes, tasks;
      for i := 0 to FDS
        invariant pipes == pipes1 && tasks == tasks1
        invariant |tables| == TASKS && tables == closed[owner := tables[owner]] && TableShaped(tables[owner])
        invariant forall k | 0 <= k < i ::
                    !tables[owner].used[k] && tables[owner].file[k] == -1 && tables[owner].files[k] == FreeFile()
      {
        var t := tables[owner];
        tables := tables[owner := Table(t.used[i := false], t.file[i := -1], t.files[i := FreeFile()])];
      }
      assert tables[owner] == EmptyTable();
    }

    /** Open a file that is not a pipe for an owner. */
    method OpenAbsForOwner(owner: nat, found: bool, good: bool) returns (fd: int)
      requires Valid() && owner < TASKS
      modifies this`tables
      ensures Valid() && View() == Open(old(View()), owner, found, good).0
              && fd == Open(old(View()), owner, found, good).1
      ensures fd >= 0 ==> VfsTables.Lowest(old(tables)[owner], fd) && VfsTables.Alone(tables[owner], fd)
      ensures found && good && FreeSlot(old(tables)[owner].used, 0) >= 0 ==> fd >= 0
    {
      OpenInv(View(), owner, found, good);
      VfsTables.OpenAnswer(View(), owner, found, good);
      fd := AllocFdSlot(owner);
      var of := AllocOpenFile(owner);
      if fd >= 0 {
        OpenFileAvailable(tables[owner]);
      }
      if !found || fd < 0 || of < 0 || !good {
        return -1;
      }
      var t := tables[owner];
      tables := tables[owner := Table(t.used[fd := true], t.file[fd := of], t.files[of := File(true, 1, -1, NoEnd)])];
    }

    method VfsDup(owner: nat, fd: int) returns (newfd: int)
      requires Valid() && owner < TASKS
      modifies this`tables
      ensures Valid() && View() == Dup(old(View()), owner, fd).0 && newfd == Dup(old(View()), owner, fd).1
      ensures newfd >= 0 <==> Live(old(tables)[owner], fd) && exists b :: VfsTables.Lowest(old(tables)[owner], b)
      ensures newfd >= 0 ==> VfsTables.Lowest(old(tables)[owner], newfd) && Live(tables[owner], newfd)
      ensures newfd >= 0 ==> tables[owner].file[newfd] == old(tables)[owner].file[fd]
    {
      DupInv(View(), owner, fd);
      VfsTables.DupAnswer(View(), owner, fd);
      newfd := AllocFdSlot(owner);
      if !Live(tables[owner], fd) || newfd < 0 {
        return -1;
      }
      var t := tables[owner];
      var of := t.file[fd];
      tables := tables[owner := Table(t.used[newfd := true], t.file[newfd := of],
                                      t.files[of := t.files[of].(refs := t.files[of].refs + 1)])];
    }

    method VfsDup2(owner: nat, oldfd: int, newfd: int) returns (ret: int)
      requires Valid() && owner < TASKS
      modifies this
      ensures Valid() && View() == Dup2(old(View()), owner, oldfd, newfd).0
              && ret == Dup2(old(View()), owner, oldfd, newfd).1
    {
      ghost var s := View();
      Dup2Inv(s, owner, oldfd, newfd);
      if !Live(tables[owner], oldfd) || newfd < 0 || newfd >= FDS {
        return -1;
      }
      if oldfd == newfd {
        return newfd;
      }
      StillOpen(s, owner, oldfd, newfd);
      if tables[owner].used[newfd] {
        var closed := CloseFdLocked(owner, newfd);
      }
      var t := tables[owner];
      var of := t.file[oldfd];
      tables := tables[owner := Table(t.used[newfd := true], t.file[newfd := of],
                                      t.files[of := t.files[of].(refs := t.files[of].refs + 1)])];
      ret := newfd;
    }

    /** Two descriptors on a new pipe. The first of each pair is marked for the moment while the second is looked
        for. */
    method VfsPipe(owner: nat) returns (rfd: int, wfd: int)
      requires Valid() && owner < TASKS
      modifies this
      ensures Valid() && View() == MakePipe(old(View()), owner).0
      ensures rfd == MakePipe(old(View()), owner).1 && wfd == MakePipe(old(View()), owner).2
      ensures rfd >= 0 ==> exists k :: VfsTables.PipeMade(old(View()), View(), owner, k, rfd, wfd)
    {
      MakePipeInv(View(), owner);
      VfsTables.MakePipeAnswer(View(), owner);
      var was := tables;
      var k := FindPipe();
      rfd := AllocFdSlot(owner);
      if rfd < 0 || k < 0 {
        return -1, -1;
      }
      tables := was[owner := was[owner].(used := was[owner].used[rfd := true])];
      wfd := AllocFdSlot(owner);
      tables := was;
      if wfd < 0 {
        return -1, -1;
      }
      var rof := AllocOpenFile(owner);
      if rof < 0 {
        return -1, -1;
      }
      var t := was[owner];
      tables := was[owner := t.(files := t.files[rof := t.files[rof].(used := true)])];
      assert FilesUsed(tables[owner].files) == FilesUsed(t.files)[rof := true];
      var wof := AllocOpenFile(owner);
      tables := was;
      if wof < 0 {
        return -1, -1;
      }
      pipes := pipes[k := Pipe(true, 1, 1, Ring(pipes[k].ring.buf, 0, 0, 0), {}, {})];
      var files := t.files[rof := File(true, 1, k, ReadEnd)][wof := File(true, 1, k, WriteEnd)];
      tables := tables[owner := Table(t.used[rfd := true][wfd := true], t.file[rfd := rof][wfd := wof], files)];
    }

    /** Copy the first `limit` descriptors of one owner to another. */
    method CloneFdRange(dst: nat, src: nat, limit: int) returns (ret: int)
      requires Valid() && dst < TASKS && src < TASKS
      modifies this
      ensures Valid() && View() == Clone(old(View()), dst, src, limit)
      ensures ret == 0 <==> dst == src || limit >= 0
    {
      CloneInv(View(), dst, src, limit);
      if dst == src {
        return 0;
      }
      if limit < 0 {
        return -1;
      }
      ResetInv(View(), dst);
      TaskReset(dst);
      var n := Limit(limit);
      var refs := CountNames(src, n);
      ghost var tables1 := tables;
      CopyFiles(dst, src, n, refs);
      ghost var copied := tables[dst];
      CopyDescriptors(dst, src, n);
      UpdateTwice(tables1, dst, copied, tables[dst]);
      ret := 0;
    }

    /** How many of the first n descriptors name each open file. */
    method CountNames(owner: nat, n: nat) returns (refs: seq<nat>)
      requires Shaped(View()) && owner < TASKS && TableOk(tables[owner]) && n <= FDS
      ensures |refs| == FDS && forall i | 0 <= i < FDS :: refs[i] == Names(tables[owner], n, i)
    {
      var t := tables[owner];
      refs := seq(FDS, k => 0);
      for fd := 0 to n
        invariant |refs| == FDS && forall i | 0 <= i < FDS :: refs[i] == Names(t, fd, i)
      {
        if t.used[fd] && 0 <= t.file[fd] < FDS && t.files[t.file[fd]].used {
          refs := refs[t.file[fd] := refs[t.file[fd]] + 1];
        }
      }
    }

    /** One more open file holds a pipe end. */
    method CountEndOf(f: File)
      requires |pipes| == PIPES && f.used
      modifies this`pipes
      ensures pipes == AddEnd(old(pipes), f)
    {
      if 0 <= f.pipe < PIPES && pipes[f.pipe].used {
        if f.end == ReadEnd {
          pipes := pipes[f.pipe := pipes[f.pipe].(readers := pipes[f.pipe].readers + 1)];
        } else if f.end == WriteEnd {
          pipes := pipes[f.pipe := pipes[f.pipe].(writers := pipes[f.pipe].writers + 1)];
        }
      }
    }

    /** Copy the open files that the descriptors name, with counts of their own, and count the pipe ends they hold. */
    method CopyFiles(dst: nat, src: nat, n: nat, refs: seq<nat>)
      requires TablesOk(View()) && dst < TASKS && src < TASKS && dst != src && n <= FDS && tables[dst] == EmptyTable()
      requires |refs| == FDS && forall i | 0 <= i < FDS :: refs[i] == Names(tables[src], n, i)
      modifies this`tables, this`pipes
      ensures tables == old(tables)[dst := EmptyTable().(files := CloneTable(old(tables)[src], n).files)]
      ensures pipes == AddEnds(old(pipes), CloneTable(old(tables)[src], n).files, FDS)
    {
      ghost var was, pipes0, files := tables, pipes, CloneTable(tables[src], n).files;
      CloneTableOk(was[src], n);
      FilesSoFarStart(files);
      AddNoEnds(pipes0, files);
      for i := 0 to FDS
        invariant Shaped(View()) && tables == was[dst := EmptyTable().(files := FilesSoFar(files, i))]
        invariant pipes == AddEnds(pipes0, files, i)
      {
        CloneFile(was[src], n, i);
        FilesSoFarNext(files, i);
        AddEndsNext(pipes0, files, i);
        if refs[i] != 0 {
          var f := tables[src].files[i].(refs := refs[i]);
          UpdateTwice(was, dst, tables[dst], tables[dst].(files := tables[dst].files[i := f]));
          tables := tables[dst := tables[dst].(files := tables[dst].files[i := f])];
          CountEndOf(f);
        }
      }
    }

    /** Point the new owner's descriptors at the copied open files. */
    method CopyDescriptors(dst: nat, src: nat, n: nat)
      requires Shaped(View()) && dst < TASKS && src < TASKS && dst != src && n <= FDS && TableOk(tables[src])
      requires tables[dst] == EmptyTable().(files := CloneTable(tables[src], n).files)
      modifies this`tables
      ensures tables == old(tables)[dst := CloneTable(old(tables)[src], n)]
    {
      ghost var was, t' := tables, CloneTable(tables[src], n);
      for fd := 0 to n
        invariant Shaped(View()) && tables == was[dst := tables[dst]] && tables[dst].files == t'.files
        invariant forall b | 0 <= b < FDS ::
                    && tables[dst].used[b] == (b < fd && t'.used[b])
                    && tables[dst].file[b] == if b < fd then t'.file[b] else -1
      {
        var t := tables[src];
        if t.used[fd] && 0 <= t.file[fd] < FDS {
          NamesSome(t, n, fd);
          if tables[dst].files[t.file[fd]].used {
            var d := tables[dst];
            tables := tables[dst := Table(d.used[fd := true], d.file[fd := t.file[fd]], d.files)];
          }
        }
      }
      assert tables[dst] == t';
    }

    /** Standard streams for a new task: reset it and open the console or the null device three times. */
    method VfsSetupStdio(owner: nat, found: bool, a: bool, b: bool, c: bool) returns (ret: int)
      requires Valid() && owner < TASKS
      modifies this
      ensures Valid() && View() == SetupStdio(old(View()), owner, found, a, b, c).0
      ensures ret == if found && a && b && c then 0 else -1
    {
      SetupStdioResult(View(), owner, found, a, b, c);
      ResetInv(View(), owner);
      TaskReset(owner);
      var inFd := OpenAbsForOwner(owner, found, a);
      var outFd := OpenAbsForOwner(owner, found, b);
      var errFd := OpenAbsForOwner(owner, found, c);
      ret := if inFd == 0 && outFd == 1 && errFd == 2 then 0 else -1;
    }

    /** Standard streams on the serial line: only descriptors 0 to 2 are replaced. */
    method VfsSetupSerialStdio(owner: nat, found: bool, a: bool, b: bool, c: bool) returns (ret: int)
      requires Valid() && owner < TASKS
      modifies this
      ensures Valid() && View() == SetupSerialStdio(old(View()), owner, found, a, b, c).0
      ensures ret == if found && a && b && c then 0 else -1
    {
      SetupSerialStdioResult(View(), owner, found, a, b, c);
      CloseUpToInv(View(), owner, 3);
      CloseBelow(owner, 3);
      var inFd := OpenAbsForOwner(owner, found, a);
      var outFd := OpenAbsForOwner(owner, found, b);
      var errFd := OpenAbsForOwner(owner, found, c);
      ret := if inFd == 0 && outFd == 1 && errFd == 2 then 0 else -1;
    }

    /** Put bytes into a pipe and wake its waiting readers. */
    method PutBytes(k: nat, bytes: seq<byte>)
      requires Shaped(View()) && k < PIPES && pipes[k].ring.count + |bytes| <= Size()
      modifies this`pipes, this`tasks
      ensures View() == Append(old(View()), k, bytes)
    {
      var waiters := pipes[k].readWaiters;
      pipes := pipes[k := pipes[k].(ring := Put(pipes[k].ring, bytes), readWaiters := {})];
      WakeMask(waiters);
    }

    /** Write into a pipe until the payload is in, the readers are gone, or the task has to wait. */
    method PipeWrite(t: nat, k: nat, payload: seq<byte>, from: nat) returns (done: nat, outcome: Outcome)
      requires Shaped(View()) && t < TASKS && k < PIPES && from <= |payload|
      modifies this`pipes, this`tasks
      ensures (View(), done, outcome) == WriteLoop(old(View()), t, k, payload, from)
    {
      ghost var r := WriteLoop(View(), t, k, payload, from);
      done := from;
      while done < |payload|
        invariant done <= |payload| && Shaped(View()) && r == WriteLoop(View(), t, k, payload, done)
        decreases |payload| - done
      {
        ghost var now := View();
        if pipes[k].ring.count == Size() && pipes[k].readers > 0 {
          pipes := pipes[k := pipes[k].(writeWaiters := pipes[k].writeWaiters + {t})];
          tasks := tasks[t := Suspended(t, Writing(k, payload, done))];
          assert View() == now.(pipes := pipes, tasks := tasks);
          return done, Sleeps;
        }
        if pipes[k].readers == 0 || pipes[k].ring.count == Size() {
          tasks := tasks[t := Idle];
          assert View() == now.(tasks := tasks);
          return done, Returns(Partial(done));
        }
        var chunk := Min(|payload| - done, Size() - pipes[k].ring.count);
        PutBytes(k, payload[done..done + chunk]);
        LoopGoesOn(now, View(), t, k, payload, done, done + chunk, r);
        done := done + chunk;
      }
      tasks := tasks[t := Idle];
      outcome := Returns(done);
    }

    /** Read from a pipe what there is, or see the end of the stream, or wait. */
    method PipeRead(t: nat, k: nat, n: nat) returns (bytes: seq<byte>, outcome: Outcome)
      requires Shaped(View()) && t < TASKS && k < PIPES
      modifies this`pipes, this`tasks
      ensures (View(), bytes, outcome) == ReadLoop(old(View()), t, k, n)
    {
      bytes := [];
      if pipes[k].ring.count == 0 && pipes[k].writers > 0 {
        pipes := pipes[k := pipes[k].(readWaiters := pipes[k].readWaiters + {t})];
        tasks := tasks[t := Suspended(t, Reading(k, n))];
        return bytes, Sleeps;
      }
      if pipes[k].ring.count == 0 {
        tasks := tasks[t := Idle];
        return bytes, Returns(0);
      }
      var m := Min(n, pipes[k].ring.count);
      var taken := Take(pipes[k].ring, m);
      bytes := taken.1;
      var waiters := pipes[k].writeWaiters;
      pipes := pipes[k := pipes[k].(ring := taken.0, writeWaiters := {})];
      WakeMask(waiters);
      tasks := tasks[t := Idle];
      outcome := Returns(m);
    }

    /** The first section of a read from a descriptor.  The event says what it took and what it returned, if it did. */
    method VfsRead(t: nat, owner: nat, fd: int, n: nat) returns (e: Event)
      requires Valid() && t < TASKS && owner < TASKS && tasks[t].Idle?
      modifies this`pipes, this`tasks
      ensures Valid() && (View(), e) == StartRead(old(View()), t, owner, fd, n)
      ensures VfsAnswers.ReadStarts(old(View()), t, owner, fd, n, View(), e)
    {
      ReadInv(View(), t, owner, fd, n);
      VfsAnswers.ReadAnswer(View(), t, owner, fd, n);
      if !Live(tables[owner], fd) {
        return Refused(t, -1);
      }
      var f := tables[owner].files[tables[owner].file[fd]];
      if f.end == NoEnd {
        return Quiet;
      }
      if f.end != ReadEnd || f.pipe < 0 || f.pipe >= PIPES || !pipes[f.pipe].used {
        return Refused(t, -1);
      }
      if n == 0 {
        return Refused(t, 0);
      }
      var bytes, outcome := PipeRead(t, f.pipe, n);
      e := Moved(t, f.pipe, true, Reading(f.pipe, n), bytes, outcome);
    }

    /** The first section of a write to a descriptor. */
    method VfsWrite(t: nat, owner: nat, fd: int, payload: seq<byte>) returns (e: Event)
      requires Valid() && t < TASKS && owner < TASKS && tasks[t].Idle?
      modifies this`pipes, this`tasks
      ensures Valid() && (View(), e) == StartWrite(old(View()), t, owner, fd, payload)
      ensures VfsAnswers.WriteStarts(old(View()), t, owner, fd, payload, View(), e)
    {
      WriteInv(View(), t, owner, fd, payload);
      VfsAnswers.WriteAnswer(View(), t, owner, fd, payload);
      if !Live(tables[owner], fd) {
        return Refused(t, -1);
      }
      var f := tables[owner].files[tables[owner].file[fd]];
      if f.end == NoEnd {
        return Quiet;
      }
      if f.end != WriteEnd || f.pipe < 0 || f.pipe >= PIPES || !pipes[f.pipe].used || pipes[f.pipe].readers == 0 {
        return Refused(t, -1);
      }
      if payload == [] {
        return Refused(t, 0);
      }
      var done, outcome := PipeWrite(t, f.pipe, payload, 0);
      e := Moved(t, f.pipe, true, Writing(f.pipe, payload, 0), payload[..done], outcome);
    }

    /** A task that waited runs again: it takes its bit back and, unless the pipe has gone, looks at it once more. */
    method PipeResume(t: nat) returns (e: Event)
      requires Valid() && t < TASKS
      modifies this`pipes, this`tasks
      ensures Valid() && (View(), e) == Resume(old(View()), t)
      ensures WaitOk(old(View()), t) && VfsAnswers.Resumed(old(View()), t, View(), e)
    {
      ResumeInv(View(), t);
      VfsAnswers.ResumeAnswer(View(), t);
      assert WaitOk(View(), t);
      match tasks[t]
      case Ready(Reading(k, n)) =>
        pipes := pipes[k := pipes[k].(readWaiters := pipes[k].readWaiters - {t})];
        if !pipes[k].used {
          tasks := tasks[t := Idle];
          return Moved(t, k, false, Reading(k, n), [], Returns(0));
        }
        var bytes, outcome := PipeRead(t, k, n);
        e := Moved(t, k, false, Reading(k, n), bytes, outcome);
      case Ready(Writing(k, payload, from)) =>
        pipes := pipes[k := pipes[k].(writeWaiters := pipes[k].writeWaiters - {t})];
        if !pipes[k].used {
          tasks := tasks[t := Idle];
          return Moved(t, k, false, Writing(k, payload, from), [], Returns(Partial(from)));
        }
        var done, outcome := PipeWrite(t, k, payload, from);
        e := Moved(t, k, false, Writing(k, payload, from), payload[from..done], outcome);
      case _ => e := Quiet;
    }
  }
}

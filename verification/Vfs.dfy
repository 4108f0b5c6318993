/** The file-descriptor layer and the pipes: the kernel's tables as values, and every operation as a function on them.

    Each function is one lock-held section of the kernel.  A pipe call that has to wait ends its section by marking the
    task and starts a new one when its task runs again. */
module Vfs {
  import opened Common
  import opened PipeRing

  const TASKS: nat := 32
  const FDS: nat := 32
  const PIPES: nat := 16

  datatype End = NoEnd | ReadEnd | WriteEnd

  /** An open-file description.  Files that are not pipes have pipe == -1. */
  datatype File = File(used: bool, refs: int, pipe: int, end: End)

  function FreeFile(): File {
    File(false, 0, -1, NoEnd)
  }

  /** The descriptors of one owner: which are in use, the open file each names, and the open files. */
  datatype Table = Table(used: seq<bool>, file: seq<int>, files: seq<File>)

  /** A pipe call that has not finished. */
  datatype Call = Reading(pipe: nat, n: nat) | Writing(pipe: nat, payload: seq<byte>, done: nat)

  /** Idle: not inside a pipe wait.  Blocked: not scheduled until woken.  Ready: scheduled, about to retake the lock. */
  datatype Phase = Idle | Blocked(call: Call) | Ready(call: Call)

  datatype Pipe = Pipe(used: bool, readers: int, writers: int, ring: Ring, readWaiters: set<nat>,
    writeWaiters: set<nat>)

  datatype State = State(tables: seq<Table>, pipes: seq<Pipe>, tasks: seq<Phase>)

  /** How a lock-held section of a pipe call ends: the task waits, or the call returns a value. */
  datatype Outcome = Sleeps | Returns(value: int)

  /** What a step does that can be seen at a pipe: pipe k is made; or task t, in a section of `call` on pipe k, the
      first one or a later one, puts in or takes out these bytes; or a call is refused before it gets to a pipe. */
  datatype Event =
    | Quiet
    | Made(k: nat)
    | Moved(t: nat, k: nat, first: bool, call: Call, bytes: seq<byte>, outcome: Outcome)
    | Refused(t: nat, value: int)

  predicate TableShaped(t: Table) {
    |t.used| == FDS && |t.file| == FDS && |t.files| == FDS
  }

  predicate Shaped(s: State) {
    && |s.tables| == TASKS && |s.pipes| == PIPES && |s.tasks| == TASKS
    && (forall o | 0 <= o < TASKS :: TableShaped(s.tables[o]))
    && (forall k | 0 <= k < PIPES :: s.pipes[k].ring.Ok())
  }

  function EmptyTable(): (t: Table)
    ensures TableShaped(t)
  {
    Table(seq(FDS, k => false), seq(FDS, k => -1), seq(FDS, k => FreeFile()))
  }

  function NoPipe(): (p: Pipe)
    ensures p.ring.Ok()
  {
    Pipe(false, 0, 0, Ring(seq(Size(), i => 0), 0, 0, 0), {}, {})
  }

  function Boot(): (s: State)
    ensures Shaped(s)
  {
    State(seq(TASKS, k => EmptyTable()), seq(PIPES, k => NoPipe()), seq(TASKS, k => Idle))
  }

  // ---------------------------------------------------------------- slots

  /** The first free slot from `from` on, or -1. */
  function FreeSlot(used: seq<bool>, from: nat): (r: int)
    requires from <= |used|
    ensures -1 <= r < |used|
    decreases |used| - from
  {
    if from == |used| then -1 else if !used[from] then from else FreeSlot(used, from + 1)
  }

  function FilesUsed(files: seq<File>): (u: seq<bool>)
    ensures |u| == |files| && forall k | 0 <= k < |u| :: u[k] == files[k].used
  {
    seq(|files|, k requires 0 <= k < |files| => files[k].used)
  }

  /** Does this descriptor lead to an open file? */
  predicate Live(t: Table, fd: int)
    requires TableShaped(t)
  {
    0 <= fd < FDS && t.used[fd] && 0 <= t.file[fd] < FDS && t.files[t.file[fd]].used
  }

  // ---------------------------------------------------------------- waking

  /** Wake the tasks in a waiter mask; task 0 is never in the range that is looked at. */
  function Wake(tasks: seq<Phase>, mask: set<nat>): (r: seq<Phase>)
    ensures |r| == |tasks|
    ensures forall t | 0 <= t < |r| ::
              r[t] == if t >= 1 && t in mask && tasks[t].Blocked? then Ready(tasks[t].call) else tasks[t]
  {
    seq(|tasks|, t requires 0 <= t < |tasks| =>
      if t >= 1 && t in mask && tasks[t].Blocked? then Ready(tasks[t].call) else tasks[t])
  }

  /** What a task is while it waits: task 0 is never taken off the processor. */
  function Suspended(t: nat, call: Call): Phase {
    if t == 0 then Ready(call) else Blocked(call)
  }

  // ---------------------------------------------------------------- closing

  /** The last descriptor of a pipe end has gone. */
  function PipeClose(s: State, k: nat, end: End): (r: State)
    requires Shaped(s) && k < PIPES
    ensures Shaped(r) && r.tables == s.tables
  {
    var p := s.pipes[k];
    if !p.used then s
    else
      var readers := if end == ReadEnd && p.readers > 0 then p.readers - 1 else p.readers;
      var writers := if end == WriteEnd && p.writers > 0 then p.writers - 1 else p.writers;
      var tasks1 := if readers == 0 then Wake(s.tasks, p.writeWaiters) else s.tasks;
      var tasks2 := if writers == 0 then Wake(tasks1, p.readWaiters) else tasks1;
      var p' := p.(used := readers != 0 || writers != 0, readers := readers, writers := writers,
                   writeWaiters := if readers == 0 then {} else p.writeWaiters,
                   readWaiters := if writers == 0 then {} else p.readWaiters);
      s.(pipes := s.pipes[k := p'], tasks := tasks2)
  }

  /** What closing a descriptor does to its table. */
  function CloseTable(t: Table, fd: nat): (r: Table)
    requires TableShaped(t) && Live(t, fd)
    ensures TableShaped(r)
  {
    var i := t.file[fd];
    Table(t.used[fd := false], t.file[fd := -1],
          t.files[i := if t.files[i].refs - 1 > 0 then t.files[i].(refs := t.files[i].refs - 1) else FreeFile()])
  }

  predicate LastRef(t: Table, fd: nat)
    requires TableShaped(t) && Live(t, fd)
  {
    t.files[t.file[fd]].refs - 1 <= 0
  }

  function CloseFd(s: State, o: nat, fd: int): (r: State)
    requires Shaped(s) && o < TASKS
    ensures Shaped(r)
  {
    if !Live(s.tables[o], fd) then s
    else
      var f := s.tables[o].files[s.tables[o].file[fd]];
      var s1 := s.(tables := s.tables[o := CloseTable(s.tables[o], fd)]);
      if LastRef(s.tables[o], fd) && 0 <= f.pipe < PIPES then PipeClose(s1, f.pipe, f.end) else s1
  }

  /** Close the descriptors below n. */
  function CloseUpTo(s: State, o: nat, n: nat): (r: State)
    requires Shaped(s) && o < TASKS && n <= FDS
    ensures Shaped(r)
  {
    if n == 0 then s else CloseFd(CloseUpTo(s, o, n - 1), o, n - 1)
  }

  /** Close everything an owner has and wipe its table. */
  function Reset(s: State, o: nat): (r: State)
    requires Shaped(s) && o < TASKS
    ensures Shaped(r)
  {
    var s1 := CloseUpTo(s, o, FDS);
    s1.(tables := s1.tables[o := EmptyTable()])
  }

  // ---------------------------------------------------------------- opening and duplicating

  function Install(t: Table, fd: nat, i: nat, f: File): (r: Table)
    requires TableShaped(t) && fd < FDS && i < FDS
    ensures TableShaped(r)
  {
    Table(t.used[fd := true], t.file[fd := i], t.files[i := f])
  }

  /** Open a file that is not a pipe: `found` says whether a file system is mounted there, `good` whether its open
      succeeded. */
  function Open(s: State, o: nat, found: bool, good: bool): (r: (State, int))
    requires Shaped(s) && o < TASKS
    ensures Shaped(r.0)
  {
    var t := s.tables[o];
    var fd, i := FreeSlot(t.used, 0), FreeSlot(FilesUsed(t.files), 0);
    if !found || fd < 0 || i < 0 || !good then (s, -1)
    else (s.(tables := s.tables[o := Install(t, fd, i, File(true, 1, -1, NoEnd))]), fd)
  }

  /** One more reference from descriptor `fd` to open file i. */
  function Share(t: Table, fd: nat, i: nat): (r: Table)
    requires TableShaped(t) && fd < FDS && i < FDS
    ensures TableShaped(r)
  {
    Install(t, fd, i, t.files[i].(refs := t.files[i].refs + 1))
  }

  function Dup(s: State, o: nat, fd: int): (r: (State, int))
    requires Shaped(s) && o < TASKS
    ensures Shaped(r.0)
  {
    var t := s.tables[o];
    var newfd := FreeSlot(t.used, 0);
    if !Live(t, fd) || newfd < 0 then (s, -1)
    else (s.(tables := s.tables[o := Share(t, newfd, t.file[fd])]), newfd)
  }

  function Dup2(s: State, o: nat, oldfd: int, newfd: int): (r: (State, int))
    requires Shaped(s) && o < TASKS
    ensures Shaped(r.0)
  {
    if !Live(s.tables[o], oldfd) || !(0 <= newfd < FDS) then (s, -1)
    else if oldfd == newfd then (s, newfd)
    else
      var s1 := if s.tables[o].used[newfd] then CloseFd(s, o, newfd) else s;
      var i := s.tables[o].file[oldfd];
      (s1.(tables := s1.tables[o := Share(s1.tables[o], newfd, i)]), newfd)
  }

  function FreePipe(pipes: seq<Pipe>): (u: seq<bool>)
    ensures |u| == |pipes| && forall k | 0 <= k < |u| :: u[k] == pipes[k].used
  {
    seq(|pipes|, k requires 0 <= k < |pipes| => pipes[k].used)
  }

  /** A pipe put to use.  What its buffer held before stays there. */
  function NewPipe(p: Pipe): (r: Pipe)
    requires |p.ring.buf| == Size()
    ensures r.ring.Ok()
  {
    Pipe(true, 1, 1, Emptied(p.ring), {}, {})
  }

  /** Make a pipe: the lowest free pipe, the two lowest free descriptors and the two lowest free open files. */
  function MakePipe(s: State, o: nat): (r: (State, int, int))
    requires Shaped(s) && o < TASKS
    ensures Shaped(r.0)
  {
    var t := s.tables[o];
    var k := FreeSlot(FreePipe(s.pipes), 0);
    var rfd := FreeSlot(t.used, 0);
    if rfd < 0 || k < 0 then (s, -1, -1)
    else
      var wfd := FreeSlot(t.used[rfd := true], 0);
      var rof := FreeSlot(FilesUsed(t.files), 0);
      if wfd < 0 || rof < 0 then (s, -1, -1)
      else
        var wof := FreeSlot(FilesUsed(t.files)[rof := true], 0);
        if wof < 0 then (s, -1, -1)
        else
          var t1 := Install(t, rfd, rof, File(true, 1, k, ReadEnd));
          var t2 := Install(t1, wfd, wof, File(true, 1, k, WriteEnd));
          (s.(tables := s.tables[o := t2], pipes := s.pipes[k := NewPipe(s.pipes[k])]), rfd, wfd)
  }

  // ---------------------------------------------------------------- cloning

  /** How many of the first n descriptors name open file i. */
  function Names(t: Table, n: nat, i: int): nat
    requires TableShaped(t) && n <= FDS
  {
    if n == 0 then 0 else Names(t, n - 1, i) + (if t.used[n - 1] && t.file[n - 1] == i then 1 else 0)
  }

  /** How many of the first n open files are the given end of pipe k. */
  function Ends(files: seq<File>, n: nat, k: int, end: End): nat
    requires n <= |files|
  {
    if n == 0 then 0
    else Ends(files, n - 1, k, end)
         + (if files[n - 1].used && files[n - 1].pipe == k && files[n - 1].end == end then 1 else 0)
  }

  /** The table that a clone of the first `limit` descriptors gets. */
  function CloneTable(src: Table, limit: nat): (r: Table)
    requires TableShaped(src) && limit <= FDS
    ensures TableShaped(r)
  {
    Table(seq(FDS, fd requires 0 <= fd < FDS => fd < limit && Live(src, fd)),
          seq(FDS, fd requires 0 <= fd < FDS => if fd < limit && Live(src, fd) then src.file[fd] else -1),
          seq(FDS, i requires 0 <= i < FDS =>
            if src.files[i].used && Names(src, limit, i) > 0 then src.files[i].(refs := Names(src, limit, i))
              else FreeFile()))
  }

  /** The pipes after the ends held by the first n of `files` have been counted once more. */
  function AddEnds(pipes: seq<Pipe>, files: seq<File>, n: nat): (r: seq<Pipe>)
    requires n <= |files|
    ensures |r| == |pipes|
    ensures forall k | 0 <= k < |r| :: r[k] == if !pipes[k].used then pipes[k] else
              pipes[k].(readers := pipes[k].readers + Ends(files, n, k, ReadEnd),
                        writers := pipes[k].writers + Ends(files, n, k, WriteEnd))
  {
    seq(|pipes|, k requires 0 <= k < |pipes| => if !pipes[k].used then pipes[k] else
      pipes[k].(readers := pipes[k].readers + Ends(files, n, k, ReadEnd),
                writers := pipes[k].writers + Ends(files, n, k, WriteEnd)))
  }

  function Limit(limit: nat): (n: nat)
    ensures n <= FDS
  {
    if limit > FDS then FDS else limit
  }

  /** Give owner `dst` a copy of the first `limit` descriptors of owner `src`, with open files of its own. */
  function Clone(s: State, dst: nat, src: nat, limit: int): (r: State)
    requires Shaped(s) && dst < TASKS && src < TASKS
    ensures Shaped(r)
  {
    if dst == src || limit < 0 then s
    else
      var s1 := Reset(s, dst);
      var t := CloneTable(s1.tables[src], Limit(limit));
      s1.(tables := s1.tables[dst := t], pipes := AddEnds(s1.pipes, t.files, FDS))
  }

  // ---------------------------------------------------------------- standard streams

  /** Open three times in a row; the result is 0 when the descriptors are 0, 1 and 2. */
  function OpenThree(s: State, o: nat, found: bool, a: bool, b: bool, c: bool): (r: (State, int))
    requires Shaped(s) && o < TASKS
    ensures Shaped(r.0)
  {
    var r0 := Open(s, o, found, a);
    var r1 := Open(r0.0, o, found, b);
    var r2 := Open(r1.0, o, found, c);
    (r2.0, if r0.1 == 0 && r1.1 == 1 && r2.1 == 2 then 0 else -1)
  }

  function SetupStdio(s: State, o: nat, found: bool, a: bool, b: bool, c: bool): (r: (State, int))
    requires Shaped(s) && o < TASKS
    ensures Shaped(r.0)
  {
    OpenThree(Reset(s, o), o, found, a, b, c)
  }

  function SetupSerialStdio(s: State, o: nat, found: bool, a: bool, b: bool, c: bool): (r: (State, int))
    requires Shaped(s) && o < TASKS
    ensures Shaped(r.0)
  {
    OpenThree(CloseUpTo(s, o, 3), o, found, a, b, c)
  }

  // ---------------------------------------------------------------- pipe traffic

  /** A reader holding the lock: wait, see the end of the stream, or take what there is and wake the writers.  The
      second result is the bytes taken. */
  function ReadLoop(s: State, t: nat, k: nat, n: nat): (r: (State, seq<byte>, Outcome))
    requires Shaped(s) && t < TASKS && k < PIPES
    ensures Shaped(r.0) && r.0.tables == s.tables
  {
    var p := s.pipes[k];
    if p.ring.count == 0 && p.writers > 0 then
      (s.(pipes := s.pipes[k := p.(readWaiters := p.readWaiters + {t})],
          tasks := s.tasks[t := Suspended(t, Reading(k, n))]), [], Sleeps)
    else if p.ring.count == 0 then (s.(tasks := s.tasks[t := Idle]), [], Returns(0))
    else
      var m := Min(n, p.ring.count);
      (s.(pipes := s.pipes[k := p.(ring := Take(p.ring, m).0, writeWaiters := {})],
          tasks := Wake(s.tasks, p.writeWaiters)[t := Idle]), Take(p.ring, m).1, Returns(m))
  }

  /** What a write that stops early returns. */
  function Partial(done: nat): int {
    if done > 0 then done else -1
  }

  /** A writer holding the lock: wait, give up when there are no readers, or append what fits and wake the readers.  The
      second result is how much of the payload has been appended so far. */
  function WriteLoop(s: State, t: nat, k: nat, payload: seq<byte>, done: nat): (r: (State, nat, Outcome))
    requires Shaped(s) && t < TASKS && k < PIPES && done <= |payload|
    ensures Shaped(r.0) && r.0.tables == s.tables && done <= r.1 <= |payload|
    decreases |payload| - done
  {
    var p := s.pipes[k];
    if done == |payload| then (s.(tasks := s.tasks[t := Idle]), done, Returns(done))
    else if p.ring.count == Size() && p.readers > 0 then
      (s.(pipes := s.pipes[k := p.(writeWaiters := p.writeWaiters + {t})],
          tasks := s.tasks[t := Suspended(t, Writing(k, payload, done))]), done, Sleeps)
    else if p.readers == 0 || p.ring.count == Size()
      then (s.(tasks := s.tasks[t := Idle]), done, Returns(Partial(done)))
    else
      var chunk := Min(|payload| - done, Size() - p.ring.count);
      WriteLoop(Append(s, k, payload[done..done + chunk]), t, k, payload, done + chunk)
  }

  /** Bytes go into a pipe and its waiting readers are woken. */
  function Append(s: State, k: nat, bytes: seq<byte>): (r: State)
    requires Shaped(s) && k < PIPES && s.pipes[k].ring.count + |bytes| <= Size()
    ensures Shaped(r) && r.tables == s.tables
  {
    var p := s.pipes[k];
    s.(pipes := s.pipes[k := p.(ring := Put(p.ring, bytes), readWaiters := {})], tasks := Wake(s.tasks, p.readWaiters))
  }

  /** With room and a reader the loop puts in what fits and goes on. */
  lemma LoopGoesOn(s: State, s1: State, t: nat, k: nat, payload: seq<byte>, done: nat, next: nat,
                   r: (State, nat, Outcome))
    requires Shaped(s) && Shaped(s1) && t < TASKS && k < PIPES && done < |payload|
    requires s.pipes[k].readers != 0 && s.pipes[k].ring.count < Size()
    requires next == done + Min(|payload| - done, Size() - s.pipes[k].ring.count)
    requires s1 == Append(s, k, payload[done..next]) && r == WriteLoop(s, t, k, payload, done)
    ensures r == WriteLoop(s1, t, k, payload, next)
  {
  }

  /** And what it comes to from there is what it comes to at all. */
  lemma LoopBack(s: State, t: nat, k: nat, payload: seq<byte>, done: nat, chunk: nat, r: (State, nat, Outcome))
    requires Shaped(s) && t < TASKS && k < PIPES && done < |payload|
    requires s.pipes[k].readers != 0 && s.pipes[k].ring.count < Size()
    requires chunk == Min(|payload| - done, Size() - s.pipes[k].ring.count)
    requires r == WriteLoop(Append(s, k, payload[done..done + chunk]), t, k, payload, done + chunk)
    ensures r == WriteLoop(s, t, k, payload, done)
  {
  }

  /** The end of a pipe that a descriptor leads to; None for anything else. */
  function PipeEnd(s: State, o: nat, fd: int): (r: Option<File>)
    requires Shaped(s) && o < TASKS
    ensures r.Some? ==> 0 <= r.value.pipe < PIPES && s.pipes[r.value.pipe].used
  {
    if !Live(s.tables[o], fd) then None
    else
      var f := s.tables[o].files[s.tables[o].file[fd]];
      if f.end != NoEnd && 0 <= f.pipe < PIPES && s.pipes[f.pipe].used then Some(f) else None
  }

  /** Does this descriptor lead to a file that is not a pipe? What a call does there is another file system's affair. */
  predicate OtherFile(s: State, o: nat, fd: int)
    requires Shaped(s) && o < TASKS
  {
    Live(s.tables[o], fd) && s.tables[o].files[s.tables[o].file[fd]].end == NoEnd
  }

  /** A task starts to read n bytes from a descriptor of owner o. */
  function StartRead(s: State, t: nat, o: nat, fd: int, n: nat): (r: (State, Event))
    requires Shaped(s) && t < TASKS && o < TASKS
    ensures Shaped(r.0) && r.0.tables == s.tables
  {
    var f := PipeEnd(s, o, fd);
    if OtherFile(s, o, fd) then (s, Quiet)
    else if f.None? || f.value.end != ReadEnd then (s, Refused(t, -1))
    else if n == 0 then (s, Refused(t, 0))
    else
      var r := ReadLoop(s, t, f.value.pipe, n);
      (r.0, Moved(t, f.value.pipe, true, Reading(f.value.pipe, n), r.1, r.2))
  }

  function StartWrite(s: State, t: nat, o: nat, fd: int, payload: seq<byte>): (r: (State, Event))
    requires Shaped(s) && t < TASKS && o < TASKS
    ensures Shaped(r.0) && r.0.tables == s.tables
  {
    var f := PipeEnd(s, o, fd);
    if OtherFile(s, o, fd) then (s, Quiet)
    else if f.None? || f.value.end != WriteEnd || s.pipes[f.value.pipe].readers == 0 then (s, Refused(t, -1))
    else if payload == [] then (s, Refused(t, 0))
    else
      var r := WriteLoop(s, t, f.value.pipe, payload, 0);
      (r.0, Moved(t, f.value.pipe, true, Writing(f.value.pipe, payload, 0), payload[..r.1], r.2))
  }

  /** A waiter takes its own bit back. */
  function Unlist(s: State, t: nat, k: nat, reading: bool): (r: State)
    requires Shaped(s) && k < PIPES
    ensures Shaped(r) && r.tables == s.tables
  {
    var p := s.pipes[k];
    s.(pipes := s.pipes[k := if reading then p.(readWaiters := p.readWaiters - {t})
                             else p.(writeWaiters := p.writeWaiters - {t})])
  }

  /** A task that waited has the lock again: it takes its own bit back and looks at the pipe once more. */
  function Resume(s: State, t: nat): (r: (State, Event))
    requires Shaped(s) && t < TASKS
    ensures Shaped(r.0) && r.0.tables == s.tables
  {
    match s.tasks[t]
    case Ready(Reading(k, n)) =>
      if k >= PIPES then (s, Quiet)
      else if !s.pipes[k].used then
        (Unlist(s, t, k, true).(tasks := s.tasks[t := Idle]), Moved(t, k, false, Reading(k, n), [], Returns(0)))
      else
        var r := ReadLoop(Unlist(s, t, k, true), t, k, n);
        (r.0, Moved(t, k, false, Reading(k, n), r.1, r.2))
    case Ready(Writing(k, payload, done)) =>
      if k >= PIPES || done > |payload| then (s, Quiet)
      else if !s.pipes[k].used then
        (Unlist(s, t, k, false).(tasks := s.tasks[t := Idle]),
         Moved(t, k, false, Writing(k, payload, done), [], Returns(Partial(done))))
      else
        var r := WriteLoop(Unlist(s, t, k, false), t, k, payload, done);
        (r.0, Moved(t, k, false, Writing(k, payload, done), payload[done..r.1], r.2))
    case _ => (s, Quiet)
  }

  // ---------------------------------------------------------------- runs

  datatype Op =
    | OpenOp(o: nat, found: bool, good: bool)
    | CloseOp(o: nat, fd: int)
    | DupOp(o: nat, fd: int)
    | Dup2Op(o: nat, fd: int, newfd: int)
    | PipeOp(o: nat)
    | ResetOp(o: nat)
    | CloneOp(dst: nat, src: nat, limit: int)
    | ThreeOp(o: nat, found: bool, a: bool, b: bool, c: bool)  // the opens of vfs_setup_stdio, after its reset
    | SerialOp(o: nat, found: bool, a: bool, b: bool, c: bool)
    | ReadOp(t: nat, o: nat, fd: int, n: nat)
    | WriteOp(t: nat, o: nat, fd: int, payload: seq<byte>)
    | ResumeOp(t: nat)
    | WakeOp(t: nat)  // woken by something other than the pipe
    | ExitOp(t: nat)  // a task dies, perhaps in the middle of a call

  predicate Sensible(op: Op) {
    match op
    case ReadOp(t, o, _, _) => t < TASKS && o < TASKS
    case WriteOp(t, o, _, _) => t < TASKS && o < TASKS
    case ResumeOp(t) => t < TASKS
    case WakeOp(t) => t < TASKS
    case ExitOp(t) => t < TASKS
    case CloneOp(dst, src, _) => dst < TASKS && src < TASKS
    case _ => op.o < TASKS
  }

  /** One lock-held section and what can be seen of it at a pipe. Numbers out of range are refused; a task inside a call
      starts no other. */
  function Step(s: State, op: Op): (r: (State, Event))
    requires Shaped(s)
    ensures Shaped(r.0)
  {
    if !Sensible(op) then (s, Quiet)
    else match op
      case OpenOp(o, found, good) => (Open(s, o, found, good).0, Quiet)
      case CloseOp(o, fd) => (CloseFd(s, o, fd), Quiet)
      case DupOp(o, fd) => (Dup(s, o, fd).0, Quiet)
      case Dup2Op(o, fd, newfd) => (Dup2(s, o, fd, newfd).0, Quiet)
      case PipeOp(o) =>
        (MakePipe(s, o).0, if MakePipe(s, o).1 >= 0 then Made(FreeSlot(FreePipe(s.pipes), 0)) else Quiet)
      case ResetOp(o) => (Reset(s, o), Quiet)
      case CloneOp(dst, src, limit) => (Clone(s, dst, src, limit), Quiet)
      case ThreeOp(o, found, a, b, c) => (OpenThree(s, o, found, a, b, c).0, Quiet)
      case SerialOp(o, found, a, b, c) => (SetupSerialStdio(s, o, found, a, b, c).0, Quiet)
      case ReadOp(t, o, fd, n) => if s.tasks[t].Idle? then StartRead(s, t, o, fd, n) else (s, Quiet)
      case WriteOp(t, o, fd, payload) => if s.tasks[t].Idle? then StartWrite(s, t, o, fd, payload) else (s, Quiet)
      case ResumeOp(t) => Resume(s, t)
      case WakeOp(t) => (s.(tasks := Wake(s.tasks, {t})), Quiet)
      case ExitOp(t) => (s.(tasks := s.tasks[t := Idle]), Quiet)
  }
}

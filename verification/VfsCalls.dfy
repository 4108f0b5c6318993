/** Whole pipe calls: what a call that blocked and resumed any number of times has moved and returns, over every run.

    A run leaves a log with one event per step.  From the log alone one can tell which bytes ever went into a pipe and
    came out of it since it was made, and which bytes a task's current call has moved in all its sections so far. */
module VfsCalls {
  import opened Common
  import opened PipeRing
  import opened Vfs
  import opened VfsCount
  import opened VfsInv
  import opened VfsRuns

  /** The bytes put into pipe k since it was made. */
  function Sent(log: seq<Event>, k: nat): seq<byte> {
    if log == [] then []
    else
      var before := Sent(log[..|log| - 1], k);
      match log[|log| - 1]
      case Made(j) => if j == k then [] else before
      case Moved(_, j, _, call, bytes, _) => if j == k && call.Writing? then before + bytes else before
      case _ => before
  }

  /** The bytes taken out of pipe k since it was made. */
  function Got(log: seq<Event>, k: nat): seq<byte> {
    if log == [] then []
    else
      var before := Got(log[..|log| - 1], k);
      match log[|log| - 1]
      case Made(j) => if j == k then [] else before
      case Moved(_, j, _, call, bytes, _) => if j == k && call.Reading? then before + bytes else before
      case _ => before
  }

  /** The call that task t began last. */
  function Begun(log: seq<Event>, t: nat): Option<Call> {
    if log == [] then None
    else
      match log[|log| - 1]
      case Moved(u, _, first, call, _, _) => if u == t && first then Some(call) else Begun(log[..|log| - 1], t)
      case _ => Begun(log[..|log| - 1], t)
  }

  /** The bytes that all sections of that call together have moved. */
  function Bytes(log: seq<Event>, t: nat): seq<byte> {
    if log == [] then []
    else
      match log[|log| - 1]
      case Moved(u, _, first, _, bytes, _) =>
        if u == t && first then bytes
        else if u == t then Bytes(log[..|log| - 1], t) + bytes
        else Bytes(log[..|log| - 1], t)
      case _ => Bytes(log[..|log| - 1], t)
  }

  lemma Longer(log: seq<Event>, e: Event)
    ensures (log + [e])[..|log|] == log && (log + [e])[|log|] == e && |log + [e]| == |log| + 1
  {
  }

  // ---------------------------------------------------------------- the log and the state

  /** Pipe k is a byte stream: what has come out, followed by what its ring holds, is what went in. */
  ghost predicate Stream(s: State, log: seq<Event>, k: nat)
    requires Shaped(s) && k < PIPES
  {
    s.pipes[k].used ==> Sent(log, k) == Got(log, k) + s.pipes[k].ring.Content()
  }

  /** A task that is inside a call began it with these arguments and has moved as much as it counts. */
  ghost predicate Logged(phase: Phase, log: seq<Event>, t: nat) {
    phase.Idle? ||
    match phase.call
    case Reading(k, n) => Begun(log, t) == Some(Reading(k, n)) && Bytes(log, t) == []
    case Writing(k, payload, done) =>
      done <= |payload| && Begun(log, t) == Some(Writing(k, payload, 0)) && Bytes(log, t) == payload[..done]
  }

  ghost predicate LogOk(s: State, log: seq<Event>)
    requires Shaped(s)
  {
    && (forall k | 0 <= k < PIPES :: Stream(s, log, k))
    && (forall t | 0 <= t < TASKS :: Logged(s.tasks[t], log, t))
  }

  // ---------------------------------------------------------------- steps that move nothing

  /** No pipe is put to use, rings in use are left alone, and calls go on or end. */
  ghost predicate Calm(s: State, s': State) {
    && Shaped(s) && Shaped(s')
    && (forall k | 0 <= k < PIPES && s'.pipes[k].used :: s.pipes[k].used && s'.pipes[k].ring == s.pipes[k].ring)
    && (forall t | 0 <= t < TASKS :: SameCall(s'.tasks[t], s.tasks[t]))
  }

  lemma CalmTwice(s: State, s1: State, s2: State)
    requires Calm(s, s1) && Calm(s1, s2)
    ensures Calm(s, s2)
  {
  }

  lemma CalmLog(s: State, s': State, log: seq<Event>, e: Event)
    requires Calm(s, s') && LogOk(s, log) && (e.Quiet? || e.Refused?)
    ensures LogOk(s', log + [e])
  {
    Longer(log, e);
    forall k | 0 <= k < PIPES ensures Stream(s', log + [e], k) {
      assert Stream(s, log, k);
    }
    forall t | 0 <= t < TASKS ensures Logged(s'.tasks[t], log + [e], t) {
      assert Logged(s.tasks[t], log, t);
    }
  }

  lemma CloseFdCalm(s: State, o: nat, fd: int)
    requires Shaped(s) && o < TASKS
    ensures Calm(s, CloseFd(s, o, fd))
  {
  }

  lemma {:induction false} CloseUpToCalm(s: State, o: nat, n: nat)
    requires Shaped(s) && o < TASKS && n <= FDS
    ensures Calm(s, CloseUpTo(s, o, n))
    decreases n
  {
    if n > 0 {
      CloseUpToCalm(s, o, n - 1);
      CloseFdCalm(CloseUpTo(s, o, n - 1), o, n - 1);
      CalmTwice(s, CloseUpTo(s, o, n - 1), CloseUpTo(s, o, n));
    }
  }

  lemma TablesCalm(s: State, s': State)
    requires Shaped(s) && Shaped(s') && s'.pipes == s.pipes && s'.tasks == s.tasks
    ensures Calm(s, s')
  {
  }

  lemma CloneCalm(s: State, dst: nat, src: nat, limit: int)
    requires Shaped(s) && dst < TASKS && src < TASKS
    ensures Calm(s, Clone(s, dst, src, limit))
  {
    if dst != src && limit >= 0 {
      CloseUpToCalm(s, dst, FDS);
    }
  }

  lemma Dup2Calm(s: State, o: nat, fd: int, newfd: int)
    requires Shaped(s) && o < TASKS
    ensures Calm(s, Dup2(s, o, fd, newfd).0)
  {
    CloseFdCalm(s, o, newfd);
  }

  lemma SerialCalm(s: State, o: nat, found: bool, a: bool, b: bool, c: bool)
    requires Shaped(s) && o < TASKS
    ensures Calm(s, SetupSerialStdio(s, o, found, a, b, c).0)
  {
    var t, u := CloseUpTo(s, o, 3), SetupSerialStdio(s, o, found, a, b, c).0;
    CloseUpToCalm(s, o, 3);
    TablesCalm(t, u);
    CalmTwice(s, t, u);
  }

  /** Every operation other than making a pipe and pipe traffic is calm. */
  lemma QuietStep(s: State, op: Op)
    requires Shaped(s) && !op.ReadOp? && !op.WriteOp? && !op.ResumeOp? && !Step(s, op).1.Made?
    ensures Calm(s, Step(s, op).0) && Step(s, op).1 == Quiet
  {
    if Sensible(op) {
      match op
      case CloseOp(o, fd) => CloseFdCalm(s, o, fd);
      case Dup2Op(o, fd, newfd) => Dup2Calm(s, o, fd, newfd);
      case ResetOp(o) => CloseUpToCalm(s, o, FDS);
      case CloneOp(dst, src, limit) => CloneCalm(s, dst, src, limit);
      case SerialOp(o, found, a, b, c) => SerialCalm(s, o, found, a, b, c);
      case OpenOp(o, found, good) => TablesCalm(s, Open(s, o, found, good).0);
      case DupOp(o, fd) => TablesCalm(s, Dup(s, o, fd).0);
      case ThreeOp(o, found, a, b, c) => TablesCalm(s, OpenThree(s, o, found, a, b, c).0);
      case _ =>
    }
  }

  // ---------------------------------------------------------------- making a pipe

  lemma MadeLog(s: State, o: nat, log: seq<Event>)
    requires Shaped(s) && o < TASKS && LogOk(s, log) && MakePipe(s, o).1 >= 0
    ensures LogOk(MakePipe(s, o).0, log + [Made(FreeSlot(FreePipe(s.pipes), 0))])
  {
    var k := FreeSlot(FreePipe(s.pipes), 0);
    var s', log' := MakePipe(s, o).0, log + [Made(k)];
    Longer(log, Made(k));
    forall j | 0 <= j < PIPES ensures Stream(s', log', j) {
      assert Stream(s, log, j);
    }
    forall t | 0 <= t < TASKS ensures Logged(s'.tasks[t], log', t) {
      assert Logged(s.tasks[t], log, t);
    }
  }

  // ---------------------------------------------------------------- traffic

  /** What a section of a call of task t on pipe k leaves alone. */
  ghost predicate Elsewhere(s: State, s': State, t: nat, k: nat) {
    && Shaped(s) && Shaped(s') && k < PIPES && t < TASKS && (s'.pipes[k].used ==> s.pipes[k].used)
    && (forall j | 0 <= j < PIPES && j != k :: s'.pipes[j] == s.pipes[j])
    && (forall u | 0 <= u < TASKS && u != t :: SameCall(s'.tasks[u], s.tasks[u]))
  }

  lemma AppendBytes(a: seq<byte>, b: seq<byte>, c: seq<byte>)
    ensures a + b + c == a + (b + c)
  {
  }

  /** A section that moves bytes keeps each pipe a stream. */
  lemma MovedStreams(s: State, s': State, log: seq<Event>, t: nat, k: nat, first: bool, call: Call, bytes: seq<byte>,
                     outcome: Outcome)
    requires Elsewhere(s, s', t, k) && LogOk(s, log)
    requires s'.pipes[k].used ==>
               if call.Writing? then s'.pipes[k].ring.Content() == s.pipes[k].ring.Content() + bytes
               else s.pipes[k].ring.Content() == bytes + s'.pipes[k].ring.Content()
    ensures forall j | 0 <= j < PIPES :: Stream(s', log + [Moved(t, k, first, call, bytes, outcome)], j)
  {
    var log' := log + [Moved(t, k, first, call, bytes, outcome)];
    Longer(log, Moved(t, k, first, call, bytes, outcome));
    forall j | 0 <= j < PIPES ensures Stream(s', log', j) {
      assert Stream(s, log, j);
      if j == k {
        AppendBytes(Got(log, k), s.pipes[k].ring.Content(), bytes);
        AppendBytes(Got(log, k), bytes, s'.pipes[k].ring.Content());
      }
    }
  }

  /** And keeps the log of the other tasks. */
  lemma MovedCalls(s: State, s': State, log: seq<Event>, t: nat, k: nat, first: bool, call: Call, bytes: seq<byte>,
                   outcome: Outcome)
    requires Elsewhere(s, s', t, k) && LogOk(s, log)
    ensures var log' := log + [Moved(t, k, first, call, bytes, outcome)];
            && (forall u | 0 <= u < TASKS && u != t :: Logged(s'.tasks[u], log', u))
            && Begun(log', t) == (if first then Some(call) else Begun(log, t))
            && Bytes(log', t) == (if first then bytes else Bytes(log, t) + bytes)
  {
    var log' := log + [Moved(t, k, first, call, bytes, outcome)];
    Longer(log, Moved(t, k, first, call, bytes, outcome));
    forall u | 0 <= u < TASKS && u != t ensures Logged(s'.tasks[u], log', u) {
      assert Logged(s.tasks[u], log, u);
    }
  }

  /** What a call that ends has returned: a write the number of its bytes that went in, in order from the first, all of
      them unless the pipe had no reader left, or -1 if there were none; a read the number of bytes it took, at most as
      many as it asked for, and none only at the end of the stream. */
  ghost predicate Honest(s: State, call: Call, bytes: seq<byte>, value: int)
    requires Shaped(s)
  {
    match call
    case Reading(k, n) =>
      && k < PIPES && value == |bytes| <= n
      && (bytes == [] ==> !s.pipes[k].used || (s.pipes[k].ring.count == 0 && s.pipes[k].writers <= 0))
    case Writing(k, payload, done) =>
      && k < PIPES && bytes <= payload && value == (if bytes == payload then |payload| else Partial(|bytes|))
      && (bytes == payload || !s.pipes[k].used || s.pipes[k].readers == 0)
  }

  ghost predicate Answered(s: State, s': State, log: seq<Event>, e: Event)
    requires Shaped(s) && Shaped(s')
  {
    && LogOk(s', log + [e])
    && (e.Moved? && e.outcome.Returns? ==>
          && Begun(log + [e], e.t).Some? && Begun(log + [e], e.t).value.pipe == e.k
          && Honest(s, Begun(log + [e], e.t).value, Bytes(log + [e], e.t), e.outcome.value))
  }

  lemma ReadAnswered(s: State, s1: State, log: seq<Event>, t: nat, k: nat, n: nat, first: bool)
    requires Waits(s1) && Shaped(s) && LogOk(s, log) && t < TASKS && k < PIPES && s.pipes[k].used && n > 0
    requires s1 == if first then s else Unlist(s, t, k, true)
    requires if first then s.tasks[t].Idle? else s.tasks[t] == Ready(Reading(k, n))
    ensures var r := ReadLoop(s1, t, k, n); Answered(s, r.0, log, Moved(t, k, first, Reading(k, n), r.1, r.2))
  {
    var r := ReadLoop(s1, t, k, n);
    ReadTakes(s1, t, k, n);
    assert Logged(s.tasks[t], log, t);
    MovedStreams(s, r.0, log, t, k, first, Reading(k, n), r.1, r.2);
    MovedCalls(s, r.0, log, t, k, first, Reading(k, n), r.1, r.2);
  }

  lemma Joined(payload: seq<byte>, done: nat, end: nat)
    requires done <= end <= |payload|
    ensures payload[..done] + payload[done..end] == payload[..end]
  {
  }

  lemma WriteAnswered(s: State, s1: State, log: seq<Event>, t: nat, k: nat, payload: seq<byte>, done: nat, first: bool)
    requires Waits(s1) && Shaped(s) && LogOk(s, log) && t < TASKS && k < PIPES && s.pipes[k].used && done <= |payload|
    requires s.pipes[k].readers >= 0 && s1 == if first then s else Unlist(s, t, k, false)
    requires if first then s.tasks[t].Idle? && done == 0 else s.tasks[t] == Ready(Writing(k, payload, done))
    ensures var r := WriteLoop(s1, t, k, payload, done);
            Answered(s, r.0, log, Moved(t, k, first, Writing(k, payload, done), payload[done..r.1], r.2))
  {
    var r := WriteLoop(s1, t, k, payload, done);
    WriteEnds(s1, t, k, payload, done);
    WriteAppends(s1, t, k, payload, done);
    assert Logged(s.tasks[t], log, t);
    MovedStreams(s, r.0, log, t, k, first, Writing(k, payload, done), payload[done..r.1], r.2);
    MovedCalls(s, r.0, log, t, k, first, Writing(k, payload, done), payload[done..r.1], r.2);
    Joined(payload, done, r.1);
  }

  lemma StartReadAnswered(s: State, log: seq<Event>, t: nat, o: nat, fd: int, n: nat)
    requires Inv(s) && LogOk(s, log) && t < TASKS && o < TASKS && s.tasks[t].Idle?
    ensures var r := StartRead(s, t, o, fd, n); Answered(s, r.0, log, r.1)
  {
    var f, r := PipeEnd(s, o, fd), StartRead(s, t, o, fd, n);
    if r.1.Moved? {
      ReadAnswered(s, s, log, t, f.value.pipe, n, true);
    } else {
      CalmLog(s, s, log, r.1);
    }
  }

  lemma StartWriteAnswered(s: State, log: seq<Event>, t: nat, o: nat, fd: int, payload: seq<byte>)
    requires Inv(s) && LogOk(s, log) && t < TASKS && o < TASKS && s.tasks[t].Idle?
    ensures var r := StartWrite(s, t, o, fd, payload); Answered(s, r.0, log, r.1)
  {
    CountedReaders(s);
    var f, r := PipeEnd(s, o, fd), StartWrite(s, t, o, fd, payload);
    if r.1.Moved? {
      WriteAnswered(s, s, log, t, f.value.pipe, payload, 0, true);
      var w := WriteLoop(s, t, f.value.pipe, payload, 0);
      assert payload[0..w.1] == payload[..w.1];
    } else {
      CalmLog(s, s, log, r.1);
    }
  }

  /** A call that finds its pipe gone when it resumes. */
  lemma GoneAnswered(s: State, log: seq<Event>, t: nat)
    requires Inv(s) && LogOk(s, log) && t < TASKS && s.tasks[t].Ready? && s.tasks[t].call.pipe < PIPES
    requires !s.pipes[s.tasks[t].call.pipe].used
    ensures var r := Resume(s, t); Answered(s, r.0, log, r.1)
  {
    var r, call := Resume(s, t), s.tasks[t].call;
    assert WaitOk(s, t) && Logged(s.tasks[t], log, t);
    MovedStreams(s, r.0, log, t, call.pipe, false, call, [], r.1.outcome);
    MovedCalls(s, r.0, log, t, call.pipe, false, call, [], r.1.outcome);
  }

  lemma ResumeAnswered(s: State, log: seq<Event>, t: nat)
    requires Inv(s) && LogOk(s, log) && t < TASKS
    ensures var r := Resume(s, t); Answered(s, r.0, log, r.1)
  {
    CountedReaders(s);
    assert WaitOk(s, t);
    match s.tasks[t]
    case Ready(Reading(k, n)) =>
      if s.pipes[k].used {
        UnlistWaits(s, t, k, true);
        ReadAnswered(s, Unlist(s, t, k, true), log, t, k, n, false);
      } else {
        GoneAnswered(s, log, t);
      }
    case Ready(Writing(k, payload, done)) =>
      if s.pipes[k].used {
        UnlistWaits(s, t, k, false);
        WriteAnswered(s, Unlist(s, t, k, false), log, t, k, payload, done, false);
      } else {
        GoneAnswered(s, log, t);
      }
    case _ => CalmLog(s, s, log, Quiet);
  }

  /** Every step keeps the log in agreement with the state, and answers honestly when it ends a call. */
  lemma StepAnswered(s: State, log: seq<Event>, op: Op)
    requires Inv(s) && LogOk(s, log)
    ensures var r := Step(s, op); Answered(s, r.0, log, r.1)
  {
    match op
    case ReadOp(t, o, fd, n) =>
      if Sensible(op) && s.tasks[t].Idle? {
        StartReadAnswered(s, log, t, o, fd, n);
      } else {
        CalmLog(s, s, log, Quiet);
      }
    case WriteOp(t, o, fd, payload) =>
      if Sensible(op) && s.tasks[t].Idle? {
        StartWriteAnswered(s, log, t, o, fd, payload);
      } else {
        CalmLog(s, s, log, Quiet);
      }
    case ResumeOp(t) =>
      if Sensible(op) {
        ResumeAnswered(s, log, t);
      } else {
        CalmLog(s, s, log, Quiet);
      }
    case PipeOp(o) =>
      if Step(s, op).1.Made? {
        MadeLog(s, o, log);
      } else {
        QuietStep(s, op);
        CalmLog(s, Step(s, op).0, log, Quiet);
      }
    case _ =>
      QuietStep(s, op);
      CalmLog(s, Step(s, op).0, log, Quiet);
  }

  // ---------------------------------------------------------------- every run

  lemma {:induction false} RunLog(ops: seq<Op>)
    ensures Inv(Boot()) && LogOk(Run(Boot(), ops).0, Run(Boot(), ops).1)
    decreases |ops|
  {
    BootInv();
    if ops != [] {
      var before := Run(Boot(), ops[..|ops| - 1]);
      RunLog(ops[..|ops| - 1]);
      StepAnswered(before.0, before.1, ops[|ops| - 1]);
    }
  }

  /** In every run every pipe is a first-in first-out byte stream: what went in is what came out followed by what its
      ring holds, so the bytes ever read are a prefix of the bytes ever written and none is lost or repeated. */
  lemma PipesAreStreams(ops: seq<Op>, k: nat)
    requires k < PIPES
    ensures Inv(Boot())
    ensures var r := Run(Boot(), ops); r.0.pipes[k].used ==>
              && Sent(r.1, k) == Got(r.1, k) + r.0.pipes[k].ring.Content()
              && Got(r.1, k) <= Sent(r.1, k) && |Sent(r.1, k)| == |Got(r.1, k)| + r.0.pipes[k].ring.count
  {
    RunLog(ops);
    assert Stream(Run(Boot(), ops).0, Run(Boot(), ops).1, k);
  }

  /** In every run, a step that ends a pipe call returns the right value for the whole call, however often it blocked
      and whoever ran in between. A write returns the number of its bytes that all its sections together have put in,
      which are the first ones of its payload in order (-1 for none); they are all of them if the pipe still has a
      reader. A read returns the number of bytes it has taken. */
  lemma CallReturns(ops: seq<Op>)
    requires ops != []
    ensures Inv(Boot())
    ensures var before, r := Run(Boot(), ops[..|ops| - 1]), Run(Boot(), ops);
            var e := r.1[|ops| - 1];
            e.Moved? && e.outcome.Returns? ==>
              && Begun(r.1, e.t).Some? && Begun(r.1, e.t).value.pipe == e.k
              && Honest(before.0, Begun(r.1, e.t).value, Bytes(r.1, e.t), e.outcome.value)
  {
    RunLog(ops[..|ops| - 1]);
    var before := Run(Boot(), ops[..|ops| - 1]);
    StepAnswered(before.0, before.1, ops[|ops| - 1]);
  }

  /** In particular a write whose pipe keeps a reader returns the length of its payload, and all of it has gone in. */
  lemma WriteCompletes(ops: seq<Op>, t: nat, k: nat, payload: seq<byte>)
    requires ops != []
    ensures Inv(Boot())
    ensures var before, r := Run(Boot(), ops[..|ops| - 1]), Run(Boot(), ops);
            var e := r.1[|ops| - 1];
            e.Moved? && e.t == t && e.outcome.Returns? && Begun(r.1, t) == Some(Writing(k, payload, 0)) && k < PIPES
            && before.0.pipes[k].used && before.0.pipes[k].readers > 0 ==>
              Bytes(r.1, t) == payload && e.outcome.value == |payload|
  {
    CallReturns(ops);
  }
}

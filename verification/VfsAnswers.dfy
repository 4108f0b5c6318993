/** What each call on a descriptor answers and leaves behind, said without the functions that compute it. */
module VfsAnswers {
  import opened Common
  import opened PipeRing
  import opened Vfs
  import opened VfsCount
  import opened VfsInv
  import opened VfsRuns

  // ---------------------------------------------------------------- where descriptors lead

  function FileOf(s: State, o: nat, fd: int): File
    requires Shaped(s) && o < TASKS && Live(s.tables[o], fd)
  {
    s.tables[o].files[s.tables[o].file[fd]]
  }

  /** Descriptor fd of owner o is this end of pipe k. */
  predicate Leads(s: State, o: nat, fd: int, k: int, end: End)
    requires Shaped(s) && o < TASKS
  {
    Live(s.tables[o], fd) && FileOf(s, o, fd).pipe == k && FileOf(s, o, fd).end == end
  }

  predicate IsEnd(s: State, o: nat, fd: int, end: End)
    requires Shaped(s) && o < TASKS
  {
    Live(s.tables[o], fd) && FileOf(s, o, fd).end == end
  }

  /** An end of a pipe is an end of a pipe in use. */
  lemma EndInUse(s: State, o: nat, fd: int, end: End)
    requires Inv(s) && o < TASKS && IsEnd(s, o, fd, end) && end != NoEnd
    ensures var k := FileOf(s, o, fd).pipe;
            && 0 <= k < PIPES && s.pipes[k].used && PipeEnd(s, o, fd) == Some(FileOf(s, o, fd))
            && (if end == ReadEnd then s.pipes[k].readers > 0 else s.pipes[k].writers > 0)
            && s.pipes[k].readers >= 0 && s.pipes[k].writers >= 0
  {
    assert FileOk(FileOf(s, o, fd));
    PipeInUse(s, o, s.tables[o].file[fd]);
    CountedReaders(s);
  }

  /** Every task but t is as before, except that those of the mask that were blocked are ready. */
  predicate Woken(before: seq<Phase>, after: seq<Phase>, mask: set<nat>, t: nat) {
    && |after| == |before|
    && forall u | 0 <= u < |before| && u != t ::
         after[u] == if u >= 1 && u in mask && before[u].Blocked? then Ready(before[u].call) else before[u]
  }

  /** All pipes but k, and all tables, are as before. */
  predicate OnlyPipe(s: State, s': State, k: nat)
    requires Shaped(s) && Shaped(s')
  {
    s'.tables == s.tables && forall j | 0 <= j < PIPES && j != k :: s'.pipes[j] == s.pipes[j]
  }

  // ---------------------------------------------------------------- reading

  /** What a reader finds: nothing while somebody may still write, and then it waits in the mask; the end of the stream,
      and then it returns 0; or bytes, and then it returns the oldest ones, as many as asked for or as there are, and
      wakes exactly the waiting writers. */
  ghost predicate Read(s: State, t: nat, k: nat, n: nat, s': State, bytes: seq<byte>, outcome: Outcome)
    requires Shaped(s) && Shaped(s') && t < TASKS && k < PIPES
  {
    var p, p' := s.pipes[k], s'.pipes[k];
    && OnlyPipe(s, s', k) && p'.used == p.used && p'.readers == p.readers && p'.writers == p.writers
    && if p.ring.count == 0 && p.writers > 0 then
         && outcome == Sleeps && bytes == [] && s'.tasks[t] == Suspended(t, Reading(k, n))
         && p' == p.(readWaiters := p.readWaiters + {t}) && Woken(s.tasks, s'.tasks, {}, t)
       else
         && outcome == Returns(|bytes|) && s'.tasks[t] == Idle && |bytes| == Min(n, p.ring.count)
         && bytes + p'.ring.Content() == p.ring.Content() && p'.readWaiters == p.readWaiters
         && p'.writeWaiters == (if p.ring.count == 0 then p.writeWaiters else {})
         && Woken(s.tasks, s'.tasks, if p.ring.count == 0 then {} else p.writeWaiters, t)
  }

  lemma ReadLoopAnswers(s: State, t: nat, k: nat, n: nat)
    requires Shaped(s) && t < TASKS && k < PIPES && s.pipes[k].writers >= 0
    ensures var r := ReadLoop(s, t, k, n); Read(s, t, k, n, r.0, r.1, r.2)
  {
    if s.pipes[k].ring.count > 0 {
      TakeContent(s.pipes[k].ring, Min(n, s.pipes[k].ring.count));
    }
  }

  /** What the first section of a read of a descriptor does. */
  ghost predicate ReadStarts(s: State, t: nat, o: nat, fd: int, n: nat, s': State, e: Event)
    requires Shaped(s) && Shaped(s') && t < TASKS && o < TASKS
  {
    && (e == Quiet <==> IsEnd(s, o, fd, NoEnd))
    && (e == Refused(t, -1) <==> !IsEnd(s, o, fd, ReadEnd) && !IsEnd(s, o, fd, NoEnd))
    && (e == Refused(t, 0) <==> IsEnd(s, o, fd, ReadEnd) && n == 0)
    && (e.Moved? <==> IsEnd(s, o, fd, ReadEnd) && n > 0)
    && (!e.Moved? ==> s' == s)
    && (e.Moved? ==>
          && e.t == t && e.first && e.k < PIPES && Leads(s, o, fd, e.k, ReadEnd) && e.call == Reading(e.k, n)
          && Read(s, t, e.k, n, s', e.bytes, e.outcome))
  }

  /** A read is refused exactly when the descriptor is not the reading end of a pipe, and it returns 0 at once exactly
      when nothing is asked for or the stream has ended; with a writer left and nothing there it waits. */
  lemma ReadAnswer(s: State, t: nat, o: nat, fd: int, n: nat)
    requires Inv(s) && t < TASKS && o < TASKS
    ensures var r := StartRead(s, t, o, fd, n); ReadStarts(s, t, o, fd, n, r.0, r.1)
  {
    if IsEnd(s, o, fd, ReadEnd) {
      EndInUse(s, o, fd, ReadEnd);
      ReadLoopAnswers(s, t, FileOf(s, o, fd).pipe, n);
    } else if IsEnd(s, o, fd, WriteEnd) {
      EndInUse(s, o, fd, WriteEnd);
    }
  }

  // ---------------------------------------------------------------- writing

  /** What a writer comes to that has put in the bytes before `from`: without readers it gives up; else it puts in what
      fits, wakes exactly the waiting readers if that is anything, and returns when all is in or waits with the rest. */
  ghost predicate Written(s: State, t: nat, k: nat, payload: seq<byte>, from: nat, s': State, done: nat,
                          outcome: Outcome)
    requires Shaped(s) && Shaped(s') && t < TASKS && k < PIPES && from <= |payload|
  {
    var p, p' := s.pipes[k], s'.pipes[k];
    && OnlyPipe(s, s', k) && p'.used == p.used && p'.readers == p.readers && p'.writers == p.writers
    && if p.readers == 0 then
         && done == from && outcome == Returns(if from == 0 then -1 else from) && s'.tasks[t] == Idle
         && p' == p && Woken(s.tasks, s'.tasks, {}, t)
       else
         && done == from + Min(|payload| - from, Size() - p.ring.count)
         && p'.ring.Content() == p.ring.Content() + payload[from..done]
         && p'.readWaiters == (if done == from then p.readWaiters else {})
         && Woken(s.tasks, s'.tasks, if done == from then {} else p.readWaiters, t)
         && if done == |payload| then
              outcome == Returns(|payload|) && s'.tasks[t] == Idle && p'.writeWaiters == p.writeWaiters
            else
              && outcome == Sleeps && s'.tasks[t] == Suspended(t, Writing(k, payload, done))
              && p'.writeWaiters == p.writeWaiters + {t}
  }

  lemma WriteFull(s: State, t: nat, k: nat, payload: seq<byte>, from: nat)
      returns (s': State, done: nat, outcome: Outcome)
    requires Shaped(s) && t < TASKS && k < PIPES && from <= |payload|
    requires if s.pipes[k].readers == 0 then from < |payload| else s.pipes[k].readers > 0
    requires s.pipes[k].readers == 0 || from == |payload| || s.pipes[k].ring.count == Size()
    ensures (s', done, outcome) == WriteLoop(s, t, k, payload, from)
    ensures Shaped(s') && Written(s, t, k, payload, from, s', done, outcome)
  {
    var w := WriteLoop(s, t, k, payload, from);
    s', done, outcome := w.0, w.1, w.2;
    assert s.pipes[k].ring.Content() + payload[from..from] == s.pipes[k].ring.Content();
  }

  /** The state after bytes have gone into a pipe: a longer ring, and no reader waits any more. */
  ghost predicate Appended(s: State, k: nat, bytes: seq<byte>, s1: State)
    requires Shaped(s) && Shaped(s1) && k < PIPES
  {
    var p, p1 := s.pipes[k], s1.pipes[k];
    && OnlyPipe(s, s1, k) && p1 == p.(ring := p1.ring, readWaiters := {}) && s1.tasks == Wake(s.tasks, p.readWaiters)
    && p1.ring.Content() == p.ring.Content() + bytes && p1.ring.count == p.ring.count + |bytes|
  }

  lemma AppendAppends(s: State, k: nat, bytes: seq<byte>)
    requires Shaped(s) && k < PIPES && s.pipes[k].ring.count + |bytes| <= Size()
    ensures Appended(s, k, bytes, Append(s, k, bytes))
  {
    PutContent(s.pipes[k].ring, bytes);
  }

  /** Putting in what fits, and then coming to an end. */
  lemma WrittenAfter(s: State, s1: State, t: nat, k: nat, payload: seq<byte>, from: nat, chunk: nat, s': State,
                     done: nat, outcome: Outcome)
    requires Shaped(s) && Shaped(s1) && Shaped(s') && t < TASKS && k < PIPES && from < |payload|
    requires s.pipes[k].readers > 0 && s.pipes[k].ring.count < Size()
    requires chunk == Min(|payload| - from, Size() - s.pipes[k].ring.count)
    requires Appended(s, k, payload[from..from + chunk], s1)
    requires Written(s1, t, k, payload, from + chunk, s', done, outcome)
    ensures Written(s, t, k, payload, from, s', done, outcome)
  {
    assert done == from + chunk;
    assert s1.pipes[k].ring.Content() + payload[done..done] == s1.pipes[k].ring.Content();
    WokenAfter(s.tasks, s1.tasks, s'.tasks, s.pipes[k].readWaiters, t);
  }

  /** With room and a reader: when what fits has gone in, the pipe is full or everything is in. */
  lemma WriteRest(s: State, s1: State, t: nat, k: nat, payload: seq<byte>, from: nat, chunk: nat)
      returns (s': State, done: nat, outcome: Outcome)
    requires Shaped(s) && Shaped(s1) && t < TASKS && k < PIPES && from < |payload|
    requires s.pipes[k].readers > 0 && s.pipes[k].ring.count < Size()
    requires chunk == Min(|payload| - from, Size() - s.pipes[k].ring.count)
    requires Appended(s, k, payload[from..from + chunk], s1)
    ensures (s', done, outcome) == WriteLoop(s1, t, k, payload, from + chunk)
    ensures Shaped(s') && Written(s, t, k, payload, from, s', done, outcome)
  {
    s', done, outcome := WriteFull(s1, t, k, payload, from + chunk);
    WrittenAfter(s, s1, t, k, payload, from, chunk, s', done, outcome);
  }

  lemma WriteMore(s: State, t: nat, k: nat, payload: seq<byte>, from: nat, chunk: nat)
      returns (s': State, done: nat, outcome: Outcome)
    requires Shaped(s) && t < TASKS && k < PIPES && from < |payload|
    requires s.pipes[k].readers > 0 && s.pipes[k].ring.count < Size()
    requires chunk == Min(|payload| - from, Size() - s.pipes[k].ring.count)
    ensures (s', done, outcome) == WriteLoop(s, t, k, payload, from)
    ensures Shaped(s') && Written(s, t, k, payload, from, s', done, outcome)
  {
    var s1 := Append(s, k, payload[from..from + chunk]);
    AppendAppends(s, k, payload[from..from + chunk]);
    s', done, outcome := WriteRest(s, s1, t, k, payload, from, chunk);
    LoopBack(s, t, k, payload, from, chunk, (s', done, outcome));
  }

  lemma WriteLoopAnswers(s: State, t: nat, k: nat, payload: seq<byte>, from: nat)
      returns (s': State, done: nat, outcome: Outcome)
    requires Shaped(s) && t < TASKS && k < PIPES && from < |payload| && s.pipes[k].readers >= 0
    ensures (s', done, outcome) == WriteLoop(s, t, k, payload, from)
    ensures Shaped(s') && Written(s, t, k, payload, from, s', done, outcome)
  {
    if s.pipes[k].readers == 0 || s.pipes[k].ring.count == Size() {
      s', done, outcome := WriteFull(s, t, k, payload, from);
    } else {
      s', done, outcome := WriteMore(s, t, k, payload, from, Min(|payload| - from, Size() - s.pipes[k].ring.count));
    }
  }

  lemma WokenAfter(before: seq<Phase>, between: seq<Phase>, after: seq<Phase>, mask: set<nat>, t: nat)
    requires between == Wake(before, mask) && Woken(between, after, {}, t)
    ensures Woken(before, after, mask, t)
  {
  }

  ghost predicate WriteStarts(s: State, t: nat, o: nat, fd: int, payload: seq<byte>, s': State, e: Event)
    requires Shaped(s) && Shaped(s') && t < TASKS && o < TASKS
  {
    var heard := IsEnd(s, o, fd, WriteEnd) && 0 <= FileOf(s, o, fd).pipe < PIPES
                 && s.pipes[FileOf(s, o, fd).pipe].readers > 0;
    && (e == Quiet <==> IsEnd(s, o, fd, NoEnd))
    && (e == Refused(t, -1) <==> !heard && !IsEnd(s, o, fd, NoEnd))
    && (e == Refused(t, 0) <==> heard && payload == [])
    && (e.Moved? <==> heard && payload != [])
    && (!e.Moved? ==> s' == s)
    && (e.Moved? ==>
          && e.t == t && e.first && e.k < PIPES && Leads(s, o, fd, e.k, WriteEnd) && e.call == Writing(e.k, payload, 0)
          && |e.bytes| <= |payload| && e.bytes == payload[..|e.bytes|]
          && Written(s, t, e.k, payload, 0, s', |e.bytes|, e.outcome))
  }

  /** A write is refused exactly when the descriptor is not the writing end of a pipe or the pipe has no reader; else it
      puts in as much as fits at once. */
  lemma WriteAnswer(s: State, t: nat, o: nat, fd: int, payload: seq<byte>)
    requires Inv(s) && t < TASKS && o < TASKS
    ensures var r := StartWrite(s, t, o, fd, payload); WriteStarts(s, t, o, fd, payload, r.0, r.1)
  {
    if IsEnd(s, o, fd, WriteEnd) {
      EndInUse(s, o, fd, WriteEnd);
      if payload != [] {
        var s', done, outcome := WriteLoopAnswers(s, t, FileOf(s, o, fd).pipe, payload, 0);
      }
    } else if IsEnd(s, o, fd, ReadEnd) {
      EndInUse(s, o, fd, ReadEnd);
    }
  }

  // ---------------------------------------------------------------- after a wait

  /** The state with the waiter's own bit taken back. */
  function Unmarked(s: State, t: nat, k: nat, reading: bool): State
    requires Shaped(s) && k < PIPES
  {
    var p := s.pipes[k];
    s.(pipes := s.pipes[k := if reading then p.(readWaiters := p.readWaiters - {t})
                             else p.(writeWaiters := p.writeWaiters - {t})])
  }

  /** What a section after a wait does. */
  ghost predicate Resumed(s: State, t: nat, s': State, e: Event)
    requires Shaped(s) && Shaped(s') && t < TASKS && WaitOk(s, t)
  {
    match s.tasks[t]
    case Ready(Reading(k, n)) =>
      && e.Moved? && e.t == t && e.k == k && !e.first && e.call == Reading(k, n)
      && if s.pipes[k].used then Read(Unmarked(s, t, k, true), t, k, n, s', e.bytes, e.outcome)
         else e.bytes == [] && e.outcome == Returns(0) && s' == Unmarked(s, t, k, true).(tasks := s.tasks[t := Idle])
    case Ready(Writing(k, payload, from)) =>
      && e.Moved? && e.t == t && e.k == k && !e.first && e.call == Writing(k, payload, from)
      && if s.pipes[k].used then
           && from + |e.bytes| <= |payload| && e.bytes == payload[from..from + |e.bytes|]
           && Written(Unmarked(s, t, k, false), t, k, payload, from, s', from + |e.bytes|, e.outcome)
         else
           && e.bytes == [] && e.outcome == Returns(if from == 0 then -1 else from)
           && s' == Unmarked(s, t, k, false).(tasks := s.tasks[t := Idle])
    case _ => s' == s && e == Quiet
  }

  lemma ReadGoesOn(s: State, t: nat, k: nat, n: nat)
    requires Inv(s) && t < TASKS && s.tasks[t] == Ready(Reading(k, n)) && k < PIPES
    ensures var r := Resume(s, t);
            && r.1.Moved? && r.1.t == t && r.1.k == k && !r.1.first && r.1.call == Reading(k, n)
            && if s.pipes[k].used then Read(Unmarked(s, t, k, true), t, k, n, r.0, r.1.bytes, r.1.outcome)
               else r.1.bytes == [] && r.1.outcome == Returns(0)
                    && r.0 == Unmarked(s, t, k, true).(tasks := s.tasks[t := Idle])
  {
    if s.pipes[k].used {
      CountedReaders(s);
      ReadLoopAnswers(Unlist(s, t, k, true), t, k, n);
    }
  }

  lemma ResumeWrites(s: State, t: nat, k: nat, payload: seq<byte>, from: nat)
      returns (s': State, done: nat, outcome: Outcome)
    requires Inv(s) && t < TASKS && s.tasks[t] == Ready(Writing(k, payload, from)) && k < PIPES && from < |payload|
    requires s.pipes[k].used
    ensures from <= done <= |payload| && Shaped(s')
    ensures Resume(s, t) == (s', Moved(t, k, false, Writing(k, payload, from), payload[from..done], outcome))
    ensures Written(Unmarked(s, t, k, false), t, k, payload, from, s', done, outcome)
  {
    CountedReaders(s);
    s', done, outcome := WriteLoopAnswers(Unmarked(s, t, k, false), t, k, payload, from);
  }

  lemma WriteGoesOn(s: State, t: nat, k: nat, payload: seq<byte>, from: nat)
    requires Inv(s) && t < TASKS && s.tasks[t] == Ready(Writing(k, payload, from)) && k < PIPES && from < |payload|
    ensures var r := Resume(s, t);
            && r.1.Moved? && r.1.t == t && r.1.k == k && !r.1.first && r.1.call == Writing(k, payload, from)
            && if s.pipes[k].used then
                 && from + |r.1.bytes| <= |payload| && r.1.bytes == payload[from..from + |r.1.bytes|]
                 && Written(Unmarked(s, t, k, false), t, k, payload, from, r.0, from + |r.1.bytes|, r.1.outcome)
               else
                 && r.1.bytes == [] && r.1.outcome == Returns(if from == 0 then -1 else from)
                 && r.0 == Unmarked(s, t, k, false).(tasks := s.tasks[t := Idle])
  {
    if s.pipes[k].used {
      var s', done, outcome := ResumeWrites(s, t, k, payload, from);
      assert from + |payload[from..done]| == done;
    }
  }

  /** A call that waited goes on as a new one would, from where it was; on a pipe that has been freed it ends. */
  lemma ResumeAnswer(s: State, t: nat)
    requires Inv(s) && t < TASKS
    ensures var r := Resume(s, t); WaitOk(s, t) && Resumed(s, t, r.0, r.1)
  {
    assert WaitOk(s, t);
    match s.tasks[t]
    case Ready(Reading(k, n)) => ReadGoesOn(s, t, k, n);
    case Ready(Writing(k, payload, from)) => WriteGoesOn(s, t, k, payload, from);
    case _ =>
  }
}

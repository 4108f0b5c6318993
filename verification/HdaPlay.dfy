/** What is heard: over any run, playback resamples exactly the bytes written since the last reset, with silence for the
    bytes that were missing when they were due. */
module HdaPlay {
  import opened Common
  import opened HdaEngine

  /** The source sample that frame g of playback repeats: the last one before its time. */
  function Source(rate: nat, g: nat): nat {
    rate * g / 48000
  }

  /** Is `frame` what frame g of playing `stream` should be? */
  predicate Right(frame: int, stream: seq<int>, rate: nat, g: nat) {
    Source(rate, g) < |stream| && frame == Convert(stream[Source(rate, g)])
  }

  /** Is this the j-th period of playing `stream`? */
  predicate Plays(period: seq<int>, stream: seq<int>, rate: nat, j: nat) {
    |period| == 1024 && forall f | 0 <= f < 1024 :: Right(period[f], stream, rate, 1024 * j + f)
  }

  lemma PlaysMore(period: seq<int>, stream: seq<int>, more: seq<int>, rate: nat, j: nat)
    requires Plays(period, stream, rate, j)
    ensures Plays(period, stream + more, rate, j)
  {
    forall f | 0 <= f < 1024 ensures Right(period[f], stream + more, rate, 1024 * j + f) {
      assert Right(period[f], stream, rate, 1024 * j + f);
    }
  }

  lemma SampleAt(stream: seq<int>, rate: nat, g: nat)
    requires rate <= 48000 && DueFromStart(rate, g + 1) <= |stream|
    ensures Right(Sample(stream, 0, DueFromStart(rate, g + 1)), stream, rate, g)
  {
    DueFromStartIs(rate, g + 1);
  }

  /** Frame f after g frames. */
  lemma FramePlays(r: Engine, stream: seq<int>, g: nat, f: nat, n: nat)
    requires r.rate <= 48000 && f < n && DueFromStart(r.rate, g + n) <= |stream|
    requires Tracks(r, stream, DueFromStart(r.rate, g), PhaseFromStart(r.rate, g))
    ensures Right(Frames(r.fifo, r.current, r.phase, r.rate, n)[f], stream, r.rate, g + f)
  {
    DueMonotone(r.rate, g + (f + 1), g + n);
    DueSplit(r.rate, g, f + 1);
    SampleShift(stream, DueFromStart(r.rate, g), Due(r.phase, r.rate, f + 1));
    SampleAt(stream, r.rate, g + f);
  }

  lemma PeriodPlays(r: Engine, stream: seq<int>, j: nat, g: nat)
    requires r.rate <= 48000 && g == 1024 * j && DueFromStart(r.rate, g + 1024) <= |stream|
    requires Tracks(r, stream, DueFromStart(r.rate, g), PhaseFromStart(r.rate, g))
    ensures Plays(Frames(r.fifo, r.current, r.phase, r.rate, 1024), stream, r.rate, j)
  {
    var period := Frames(r.fifo, r.current, r.phase, r.rate, 1024);
    forall f | 0 <= f < 1024 ensures Right(period[f], stream, r.rate, 1024 * j + f) {
      FramePlays(r, stream, g, f, 1024);
    }
  }

  // ---------------------------------------------------------------- the ring

  /** After k periods, the number of the one in slot p: slots from `next` on have still to be refilled. */
  function Number(s: Engine, k: nat, p: nat): int {
    if p < s.next then k - s.next + p else k - s.next + p - s.periods
  }

  /** The k-th period has been filled, the ring holds the last ones, each in its slot, and what has not been due yet is
      queued: not a sample has been dropped, repeated or shifted. */
  ghost predicate Exact(s: Engine, stream: seq<int>, k: nat) {
    && Shaped(s) && s.playing && s.next < s.periods <= k
    && Tracks(s, stream, DueFromStart(s.rate, 1024 * k), PhaseFromStart(s.rate, 1024 * k))
    && forall p | 0 <= p < s.periods :: Plays(s.buffers[p], stream, s.rate, Number(s, k, p))
  }

  /** One more period. */
  function Refilled(s: Engine): (r: Engine)
    requires Shaped(s) && s.next < s.periods
    ensures Shaped(r) && r.next < r.periods == s.periods
  {
    NextIs(s);
    Refill(s, s.next).(next := Next(s))
  }

  /** Are there samples enough for one more period? */
  predicate Supplied(s: Engine) {
    Due(s.phase, s.rate, 1024) <= |s.fifo|
  }

  lemma RefillPlays(s: Engine, stream: seq<int>, k: nat)
    requires Exact(s, stream, k) && Supplied(s)
    ensures Exact(Refilled(s), stream, k + 1)
  {
    var g, d := 1024 * k, DueFromStart(s.rate, 1024 * k);
    PeriodSplit(s.rate, g, g + 1024);
    FillFrom(s, s.next, stream, d, PhaseFromStart(s.rate, g), DueFromStart(s.rate, g + 1024));
    PeriodPlays(s, stream, k, g);
    NextIs(s);
    var r := Refilled(s);
    forall p | 0 <= p < s.periods ensures Plays(r.buffers[p], stream, s.rate, Number(r, k + 1, p)) {
      if p == s.next {
        assert Number(r, k + 1, p) == k;
      } else {
        assert Number(r, k + 1, p) == Number(s, k, p);
      }
    }
  }

  // ---------------------------------------------------------------- underruns

  /** The byte that means silence, n times. */
  function Silence(n: nat): (z: seq<int>)
    ensures |z| == n && forall k | 0 <= k < n :: z[k] == 128
  {
    seq(n, k => 128)
  }

  /** The samples that the next period is due and that are not there, as silence. */
  function Missing(s: Engine): seq<int> {
    Silence(if Supplied(s) then 0 else Due(s.phase, s.rate, 1024) - |s.fifo|)
  }

  function Padded(s: Engine): Engine {
    s.(fifo := s.fifo + Missing(s))
  }

  lemma PaddedFits(s: Engine)
    requires Shaped(s)
    ensures Supplied(Padded(s)) && |s.fifo + Missing(s)| <= 32768
  {
    PeriodShare(s.phase, s.rate);
    RingBound(2, s.rate);
  }

  /** Running out and being fed silence sound the same. */
  lemma PaddedSample(fifo: seq<int>, more: seq<int>, current: int, j: nat)
    requires j <= |fifo + more| && forall k | 0 <= k < |more| :: more[k] == 128
    ensures Sample(fifo + more, current, j) == Sample(fifo, current, j)
  {
  }

  lemma PaddedFrames(fifo: seq<int>, more: seq<int>, current: int, phase: nat, rate: nat, n: nat)
    requires Due(phase, rate, n) <= |fifo + more| && forall k | 0 <= k < |more| :: more[k] == 128
    ensures Frames(fifo + more, current, phase, rate, n) == Frames(fifo, current, phase, rate, n)
  {
    forall f | 0 <= f < n
      ensures Frames(fifo + more, current, phase, rate, n)[f] == Frames(fifo, current, phase, rate, n)[f]
    {
      LaterDue(phase, rate, f + 1, n);
      PaddedSample(fifo, more, current, Due(phase, rate, f + 1));
    }
  }

  lemma {:induction false} LaterDue(phase: nat, rate: nat, g: nat, h: nat)
    requires g <= h
    ensures Due(phase, rate, g) <= Due(phase, rate, h)
    decreases h
  {
    if g < h {
      LaterDue(phase, rate, g, h - 1);
    }
  }

  /** Filling a period that runs out leaves what filling it from the padded queue leaves, accounts apart. */
  lemma PaddedFill(s: Engine, p: nat)
    requires Shaped(s) && p < 8 && !Supplied(s)
    ensures var f, g := Fill(s, p), Fill(Padded(s), p);
            f.fifo == g.fifo && f.current == g.current && f.phase == g.phase && f.buffers == g.buffers
  {
    PaddedFrames(s.fifo, Missing(s), s.current, s.phase, s.rate, 1024);
    PaddedSample(s.fifo, Missing(s), s.current, Due(s.phase, s.rate, 1024));
    assert s.fifo[Taken(s)..] == [];
  }

  lemma SameSound(s: Engine, t: Engine, stream: seq<int>, k: nat)
    requires Exact(s, stream, k) && Shaped(t) && t.fifo == s.fifo && t.current == s.current && t.phase == s.phase
    requires t.buffers == s.buffers && t.rate == s.rate && t.periods == s.periods && t.next == s.next && t.playing
    ensures Exact(t, stream, k)
  {
    forall p | 0 <= p < t.periods ensures Plays(t.buffers[p], stream, t.rate, Number(t, k, p)) {
      assert Number(t, k, p) == Number(s, k, p);
    }
  }

  /** One more period, with silence for what is missing. */
  lemma RefillSounds(s: Engine, stream: seq<int>, k: nat)
    requires Exact(s, stream, k)
    ensures Exact(Refilled(s), stream + Missing(s), k + 1)
  {
    if Supplied(s) {
      RefillPlays(s, stream, k);
      assert stream + Missing(s) == stream;
    } else {
      PaddedFits(s);
      QueuePlays(s, stream, k, Missing(s));
      RefillPlays(Padded(s), stream + Missing(s), k);
      PaddedFill(s, s.next);
      SameSound(Refilled(Padded(s)), Refilled(s), stream + Missing(s), k + 1);
    }
  }

  function After(s: Engine, n: nat): (r: Engine)
    requires Shaped(s) && s.next < s.periods
    ensures Shaped(r) && r.next < r.periods == s.periods
    decreases n
  {
    if n == 0 then s else After(Refilled(s), n - 1)
  }

  /** All that is missing over n periods. */
  function MissingOver(s: Engine, n: nat): seq<int>
    requires Shaped(s) && s.next < s.periods
    decreases n
  {
    if n == 0 then [] else Missing(s) + MissingOver(Refilled(s), n - 1)
  }

  lemma Joined(a: seq<int>, b: seq<int>, c: seq<int>)
    ensures a + (b + c) == (a + b) + c
  {
  }

  lemma {:induction false} AfterSounds(s: Engine, stream: seq<int>, k: nat, n: nat)
    requires Exact(s, stream, k)
    ensures Exact(After(s, n), stream + MissingOver(s, n), k + n)
    decreases n
  {
    if n > 0 {
      RefillSounds(s, stream, k);
      AfterSounds(Refilled(s), stream + Missing(s), k + 1, n - 1);
      Joined(stream, Missing(s), MissingOver(Refilled(s), n - 1));
    } else {
      assert stream + MissingOver(s, n) == stream;
    }
  }

  /** Does the FIFO hold out for n more periods? */
  predicate Fed(s: Engine, n: nat)
    requires Shaped(s) && s.next < s.periods
    decreases n
  {
    n == 0 || (Supplied(s) && Fed(Refilled(s), n - 1))
  }

  /** Then nothing is missing. */
  lemma {:induction false} FedMissesNothing(s: Engine, n: nat)
    requires Shaped(s) && s.next < s.periods && Fed(s, n)
    ensures MissingOver(s, n) == []
    decreases n
  {
    if n > 0 {
      FedMissesNothing(Refilled(s), n - 1);
    }
  }

  /** Catching up refills as many periods as the hardware has left behind. */
  lemma {:induction false} ServiceIsAfter(s: Engine, current: nat)
    requires Shaped(s) && s.next < s.periods && current < s.periods
    ensures Behind(s, current) >= 0 && Service(s, current) == After(s, Behind(s, current))
    decreases Behind(s, current)
  {
    if s.next != current {
      NextIs(s);
      ServiceIsAfter(Refilled(s), current);
    }
  }

  lemma QueuePlays(s: Engine, stream: seq<int>, k: nat, data: seq<int>)
    requires Exact(s, stream, k) && |s.fifo| + |data| <= 32768
    ensures Exact(s.(fifo := s.fifo + data), stream + data, k)
  {
    var r := s.(fifo := s.fifo + data);
    assert r.fifo == (stream + data)[DueFromStart(s.rate, 1024 * k)..];
    forall p | 0 <= p < s.periods ensures Plays(r.buffers[p], stream + data, s.rate, Number(r, k, p)) {
      PlaysMore(s.buffers[p], stream, data, s.rate, Number(s, k, p));
    }
  }

  // ---------------------------------------------------------------- starting

  lemma {:induction false} PrimedPlays(s: Engine, n: nat, g: nat)
    requires Shaped(s) && n <= 8 && g == 1024 * n && DueFromStart(s.rate, g) <= |s.fifo|
    ensures forall p | 0 <= p < n :: Plays(Primed(s, n).buffers[p], s.fifo, s.rate, p)
    decreases n
  {
    if n > 0 {
      var h: nat := g - 1024;
      var r := Primed(s, n - 1);
      DueMonotone(s.rate, h, g);
      PrimedPlays(s, n - 1, h);
      PrimedIs(s, n - 1, h);
      PeriodPlays(r, s.fifo, n - 1, h);
      assert Primed(s, n).buffers == r.buffers[n - 1 := Frames(r.fifo, r.current, r.phase, r.rate, 1024)];
    }
  }

  /** Starting with enough queued plays the queue from its first sample on. */
  lemma StartPlays(s: Engine)
    requires Shaped(s) && Threshold(s) <= |s.fifo| <= s.limit
    ensures Exact(Start(s), s.fifo, s.periods)
  {
    var g := 1024 * s.periods;
    RingShare(s.periods, s.rate);
    PrimedIs(s, s.periods, g);
    PrimedPlays(s, s.periods, g);
    StartOk(s);
    forall p | 0 <= p < s.periods ensures Plays(Start(s).buffers[p], s.fifo, s.rate, Number(Start(s), s.periods, p)) {
      assert Number(Start(s), s.periods, p) == p;
    }
  }

  // ---------------------------------------------------------------- runs

  /** Since the last reset the engine has been given `stream`: it is waiting for more of it, or has filled k periods. */
  ghost predicate Sounds(s: Engine, stream: seq<int>, k: nat) {
    if s.playing then Exact(s, stream, k) else s.fifo == stream && k == 0
  }

  predicate Audible(op: Op) {
    op.WriteOp? || op.PollOp?
  }

  /** Does a call throw away everything queued? */
  predicate Resets(op: Op) {
    (op.FlushOp? && op.good) || (op.SetRateOp? && Rate(op.rate))
  }

  /** The periods that the hardware has left behind by the time of a call. */
  function LeftBehind(s: Engine, op: Op): nat
    requires Inv(s) && Audible(op)
  {
    BelievedInside(s, op.buffer, op.register);
    Behind(s, Believed(s, op.buffer, op.register) / 4096)
  }

  /** What is missing when a call catches up. */
  function Lacking(s: Engine, op: Op): seq<int>
    requires Inv(s) && Audible(op)
  {
    if s.playing then MissingOver(s, LeftBehind(s, op)) else []
  }

  /** The bytes a call accepts. */
  function Queued(s: Engine, op: Op): seq<int>
    requires Inv(s) && Audible(op)
  {
    if op.PollOp? then [] else op.data[..Min(|op.data|, Write(s, op.data, op.buffer, op.register).1)]
  }

  /** What there is to hear after a call: nothing after a reset; else what there was, silence for what was missing, and
      the bytes accepted. */
  ghost function StreamAfter(s: Engine, op: Op, stream: seq<int>): seq<int>
    requires Inv(s)
  {
    if Resets(op) then [] else if Audible(op) then stream + Lacking(s, op) + Queued(s, op) else stream
  }

  /** And how many periods of it have been filled. */
  ghost function FilledAfter(s: Engine, op: Op, k: nat): nat
    requires Inv(s)
  {
    if Resets(op) then 0
    else if !Audible(op) then k
    else if s.playing then k + LeftBehind(s, op)
    else if Step(s, op).playing then s.periods else k
  }

  lemma PollSounds(s: Engine, op: Op, stream: seq<int>, k: nat, r: Engine, n: nat)
    requires Inv(s) && Audible(op) && Sounds(s, stream, k)
    requires r == Poll(s, op.buffer, op.register) && n == k + if s.playing then LeftBehind(s, op) else 0
    ensures r.playing == s.playing && Sounds(r, stream + Lacking(s, op), n)
  {
    if s.playing {
      var last := Believed(s, op.buffer, op.register);
      BelievedInside(s, op.buffer, op.register);
      ServiceIsAfter(s, last / 4096);
      AfterSounds(s, stream, k, LeftBehind(s, op));
      LastPlays(Service(s, last / 4096), stream + Lacking(s, op), n, last);
    } else {
      assert stream + Lacking(s, op) == stream;
    }
  }

  /** The position the hardware was last seen at has no part in it. */
  lemma LastPlays(s: Engine, stream: seq<int>, k: nat, last: nat)
    requires Exact(s, stream, k)
    ensures Exact(s.(last := last), stream, k)
  {
    SameSound(s, s.(last := last), stream, k);
  }

  /** More bytes, and the start of playback once there are enough. */
  lemma OfferPlays(s: Engine, stream: seq<int>, k: nat, data: seq<int>)
    requires Shaped(s) && Sounds(s, stream, k) && |s.fifo| + |data| <= 32768 && |s.fifo| + |data| <= s.limit
    ensures var t := s.(fifo := s.fifo + data);
            if !s.playing && |t.fifo| >= Threshold(t) then Sounds(Start(t), stream + data, s.periods)
            else Sounds(t, stream + data, k)
  {
    var t := s.(fifo := s.fifo + data);
    if s.playing {
      QueuePlays(s, stream, k, data);
    } else if |t.fifo| >= Threshold(t) {
      StartPlays(t);
    }
  }

  lemma AudibleSounds(s: Engine, op: Op, stream: seq<int>, k: nat)
    requires Inv(s) && Audible(op) && Sounds(s, stream, k)
    ensures Sounds(Step(s, op), StreamAfter(s, op, stream), FilledAfter(s, op, k))
  {
    var s1, k1 := Poll(s, op.buffer, op.register), k + if s.playing then LeftBehind(s, op) else 0;
    PollSounds(s, op, stream, k, s1, k1);
    PollInv(s, op.buffer, op.register);
    if op.PollOp? {
      assert stream + Lacking(s, op) + Queued(s, op) == stream + Lacking(s, op);
    } else {
      var data := op.data[..Min(|op.data|, Room(s1))];
      assert Queued(s, op) == data;
      OfferPlays(s1, stream + Lacking(s, op), k1, data);
    }
  }

  /** Every call, whatever it is, keeps the account of what is heard. */
  lemma StepSounds(s: Engine, op: Op, stream: seq<int>, k: nat)
    requires Inv(s) && Sounds(s, stream, k)
    ensures Sounds(Step(s, op), StreamAfter(s, op, stream), FilledAfter(s, op, k))
  {
    if Audible(op) {
      AudibleSounds(s, op, stream, k);
    }
  }

  ghost function StreamOver(s: Engine, ops: seq<Op>, stream: seq<int>): seq<int>
    requires Inv(s)
    decreases |ops|
  {
    if ops == [] then stream else StreamOver(Step(s, ops[0]), ops[1..], StreamAfter(s, ops[0], stream))
  }

  ghost function FilledOver(s: Engine, ops: seq<Op>, k: nat): nat
    requires Inv(s)
    decreases |ops|
  {
    if ops == [] then k else FilledOver(Step(s, ops[0]), ops[1..], FilledAfter(s, ops[0], k))
  }

  /** Resampling is exact over every run of writes, polls, flushes and changes of rate: the ring plays, in frame f of
      the j-th period filled since the last reset, the sample floor((1024 j + f) * rate / 48000) of what has been
      written since then, with silence in the place of samples that were missing when they were due; what has not been
      due yet is queued; and nothing written before the reset is heard after it. */
  lemma {:induction false} NoDrift(s: Engine, ops: seq<Op>, stream: seq<int>, k: nat)
    requires Inv(s) && Sounds(s, stream, k)
    ensures Sounds(Run(s, ops), StreamOver(s, ops, stream), FilledOver(s, ops, k))
    decreases |ops|
  {
    if ops != [] {
      StepSounds(s, ops[0], stream, k);
      NoDrift(Step(s, ops[0]), ops[1..], StreamAfter(s, ops[0], stream), FilledAfter(s, ops[0], k));
    }
  }

  /** So from boot on. */
  lemma NoDriftFromBoot(ops: seq<Op>)
    ensures Inv(Initial()) && Sounds(Run(Initial(), ops), StreamOver(Initial(), ops, []), FilledOver(Initial(), ops, 0))
  {
    BootNeverStarts([]);
    NoDrift(Initial(), ops, [], 0);
  }

  /** While no period finds its samples missing, what is heard is just what has been accepted. */
  lemma NoSilence(s: Engine, op: Op, stream: seq<int>)
    requires Inv(s) && Audible(op) && (s.playing ==> Fed(s, LeftBehind(s, op)))
    ensures StreamAfter(s, op, stream) == stream + Queued(s, op)
  {
    if s.playing {
      FedMissesNothing(s, LeftBehind(s, op));
    }
    assert stream + [] == stream;
  }
}

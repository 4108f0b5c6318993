/** What each call of the audio driver answers and leaves behind, said without the functions that compute it. */
module HdaAnswers {
  import opened Common
  import opened HdaEngine

  // ---------------------------------------------------------------- the position that is believed

  /** A position that has moved forward by less than half the ring since it was last looked at. */
  predicate Plausible(advance: int, bytes: nat) {
    0 < advance && advance < bytes / 2
  }

  /** Of the two positions that the hardware reports, the one with the smaller plausible advance is believed; if neither
      has one, the position has not moved when one of them says so, and is the link position otherwise.  A position
      outside the ring is never believed. */
  lemma BelievedAnswer(s: Engine, buffer: nat, register: nat)
    requires 2 <= s.periods <= 8 && s.last < s.periods * 4096
    ensures var bytes, link := s.periods * 4096, register % (s.periods * 4096);
            var a, b := Forward(buffer, s.last, bytes), Forward(link, s.last, bytes);
            var r := Believed(s, buffer, register);
            var moved := Forward(r, s.last, bytes);
            && (r == link || (r == buffer && buffer < bytes))
            && (buffer >= bytes ==> r == link)
            && (buffer < bytes && Plausible(a, bytes) && Plausible(b, bytes) ==> moved == Min(a, b))
            && (buffer < bytes && Plausible(a, bytes) && !Plausible(b, bytes) ==> r == buffer)
            && (buffer < bytes && !Plausible(a, bytes) && Plausible(b, bytes) ==> r == link)
            && (buffer < bytes && !Plausible(a, bytes) && !Plausible(b, bytes) ==>
                  if a == 0 || b == 0 then moved == 0 else r == link)
  {
  }

  // ---------------------------------------------------------------- catching up

  /** After a poll of an engine that plays, the position believed is remembered, and every period before the one it lies
      in has been refilled; an idle engine is left alone. */
  lemma PollAnswer(s: Engine, buffer: nat, register: nat)
    requires Inv(s)
    ensures var r := Poll(s, buffer, register); var position := Believed(s, buffer, register);
            && Inv(r) && r.playing == s.playing && r.rate == s.rate && r.periods == s.periods && r.limit == s.limit
            && (!s.playing ==> r == s)
            && (s.playing ==> r.last == position && r.next == position / 4096 && position < s.periods * 4096
                              && |r.fifo| + r.dma <= |s.fifo| + s.dma)
  {
    PollInv(s, buffer, register);
    if s.playing {
      BelievedInside(s, buffer, register);
      ServiceInv(s, Believed(s, buffer, register) / 4096);
      ServiceSettings(s, Believed(s, buffer, register) / 4096);
    }
  }

  lemma {:induction false} ServiceSettings(s: Engine, current: nat)
    requires Inv(s) && s.playing && current < s.periods
    ensures Service(s, current).rate == s.rate && Service(s, current).periods == s.periods
    decreases Behind(s, current)
  {
    NextIs(s);
    if s.next != current {
      RefillInv(s, s.next);
      ServiceSettings(Refill(s, s.next).(next := Next(s)), current);
    }
  }

  /** A period that runs out of samples goes on in silence. */
  lemma SilenceWhenOut(s: Engine, p: nat, f: nat)
    requires Shaped(s) && p < 8 && f < 1024 && Due(s.phase, s.rate, f + 1) > |s.fifo|
    ensures |Fill(s, p).buffers[p]| == 1024 && Fill(s, p).buffers[p][f] == 0
  {
  }

  // ---------------------------------------------------------------- writing

  /** How much is queued, in the FIFO and in the ring. */
  function Total(s: Engine): int {
    |s.fifo| + s.dma
  }

  /** A write accepts the first bytes of what it is offered, all of them unless that fills the queue to its limit or the
      FIFO; and playback starts exactly when that brings the queue to the threshold. */
  lemma WriteAnswer(s: Engine, data: seq<int>, buffer: nat, register: nat)
    requires Inv(s)
    ensures var p, r := Poll(s, buffer, register), Write(s, data, buffer, register);
            && Inv(r.0) && r.1 <= |data| && Total(r.0) == Total(p) + r.1 <= s.limit
            && (r.1 < |data| ==> Total(r.0) == s.limit || |p.fifo| + r.1 == 32768)
            && (r.0.playing <==> s.playing || |s.fifo| + r.1 >= Threshold(s))
            && (s.playing || !r.0.playing ==> r.0.fifo == p.fifo + data[..r.1])
  {
    PollAnswer(s, buffer, register);
    WriteInv(s, data, buffer, register);
    var p := Poll(s, buffer, register);
    var t := p.(fifo := p.fifo + data[..Min(|data|, Room(p))]);
    if !t.playing && |t.fifo| >= Threshold(t) {
      StartOk(t);
      Starting(t);
    }
  }

  lemma Starting(s: Engine)
    requires Shaped(s)
    ensures Start(s).playing && Start(s).next == 0 && Start(s).last == 0
  {
  }

  // ---------------------------------------------------------------- resetting

  /** An engine with nothing in it: it is idle, and the FIFO, the ring and its accounts are empty. */
  ghost predicate Empty(s: Engine) {
    && !s.playing && s.fifo == [] && s.dma == 0 && s.current == 0 && s.next == 0 && s.last == 0
    && |s.sources| == 8 && |s.buffers| == 8
    && (forall p | 0 <= p < 8 :: s.sources[p] == 0 && |s.buffers[p]| == 1024)
    && (forall p, f | 0 <= p < 8 && 0 <= f < 1024 :: s.buffers[p][f] == 0)
  }

  predicate SameSettings(s: Engine, r: Engine) {
    r.rate == s.rate && r.periods == s.periods && r.limit == s.limit
  }

  /** A flush that succeeds empties the engine and keeps the settings; one that fails changes nothing. */
  lemma FlushAnswer(s: Engine, good: bool)
    requires s.rate <= 48000
    ensures var r := Flush(s, good);
            && SameSettings(s, r)
            && (if good then Empty(r) && r.phase == 48000 - s.rate else r == s)
  {
  }

  /** The ring is the largest number of whole periods that fits the latency asked for, within 2 and 8. */
  lemma PeriodsAnswer(ms: nat)
    ensures var p := PeriodsFor(ms); var frames := Latency(ms) * 48;
            && 2 <= p <= 8 && (p > 2 ==> 1024 * p <= frames) && (p < 8 ==> frames < 1024 * (p + 1))
  {
  }

  /** The queue holds the samples of the latency asked for, rounded up, or what it takes to start if that is more. */
  lemma LimitAnswer(rate: nat, ms: nat)
    requires Rate(rate)
    ensures var l, least := LimitFor(rate, ms), RingSamples(PeriodsFor(ms), rate) + PeriodSamples(rate);
            && least <= l <= 32768 && 1000 * l >= rate * Latency(ms)
            && (l > least ==> 1000 * (l - 1) < rate * Latency(ms))
  {
    ThresholdFits(rate, ms);
    var product := rate * Latency(ms);
    assert product <= 44100 * 250;
    RingBound(PeriodsFor(ms), rate);
  }

  /** A supported rate replaces the settings, and a good reset then leaves an empty engine that a persistent writer can
      start; any other rate changes nothing. */
  lemma SetRateAnswer(s: Engine, rate: nat, ms: nat, good: bool)
    requires s.rate <= 48000
    ensures var r := SetRate(s, rate, ms, good);
            if !Rate(rate) then r == s
            else
              && r.rate == rate && r.periods == PeriodsFor(ms) && r.limit == LimitFor(rate, ms)
              && (good ==> Empty(r) && r.phase == 48000 - rate && Inv(r) && Tuned(r))
              && (!good ==> r == s.(rate := r.rate, periods := r.periods, limit := r.limit))
  {
    if Rate(rate) {
      FlushAnswer(s.(periods := PeriodsFor(ms), limit := LimitFor(rate, ms), rate := rate), good);
      SetRateTunes(s, rate, ms);
    }
  }

  // ---------------------------------------------------------------- runs

  /** The last position lies in the ring, so the advances are what they seem. */
  predicate Placed(s: Engine) {
    s.periods >= 2 && s.last < s.periods * 4096
  }

  lemma StepPlaced(s: Engine, op: Op)
    requires Inv(s) && Placed(s)
    ensures Placed(Step(s, op))
  {
    match op
    case WriteOp(data, buffer, register) => PollAnswer(s, buffer, register);
    case PollOp(buffer, register) => PollAnswer(s, buffer, register);
    case FlushOp(good) =>
    case SetRateOp(rate, ms) =>
  }

  lemma {:induction false} AlwaysPlaced(s: Engine, ops: seq<Op>)
    requires Inv(s) && Placed(s)
    ensures Placed(Run(s, ops))
    decreases |ops|
  {
    if ops != [] {
      StepPlaced(s, ops[0]);
      AlwaysPlaced(Step(s, ops[0]), ops[1..]);
    }
  }
}

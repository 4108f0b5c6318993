/** The audio engine: resampling from the application's rate to 48 kHz, the accounts of queued samples, and latency.

    The FIFO of source bytes is a queue, the DMA ring up to eight periods of 1024 frames.  The position the hardware
    reports is arbitrary. */
module HdaEngine {
  import opened Common

  datatype Engine = Engine(
    fifo: seq<int>,          // source bytes not yet resampled, oldest first
    current: int,            // the sample being repeated
    phase: nat,              // fraction of a source sample, in 48000ths
    rate: nat,
    periods: nat,            // active periods of the ring
    limit: nat,              // most samples queued at a time
    dma: nat,                // source samples inside the ring
    sources: seq<nat>,       // and how many of them each period holds
    buffers: seq<seq<int>>,
    next: nat,               // period to refill next
    last: nat,               // last hardware position
    playing: bool)

  predicate Rate(r: nat) {
    r == 11025 || r == 22050 || r == 44100
  }

  /** An unsigned 8-bit sample as a signed 16-bit one. */
  function Convert(b: int): int {
    (b - 128) * 256
  }

  // ---------------------------------------------------------------- resampling one period

  /** The phase after n frames, whole samples included. */
  function Advance(phase: nat, rate: nat, n: nat): nat {
    if n == 0 then phase else Advance(phase, rate, n - 1) + rate
  }

  /** The sample that plays when j samples have been due since the queue was `fifo`: silence once it has run out. */
  function Sample(fifo: seq<int>, current: int, j: nat): int {
    if j == 0 then current else if j <= |fifo| then Convert(fifo[j - 1]) else 0
  }

  function Due(phase: nat, rate: nat, n: nat): nat {
    Advance(phase, rate, n) / 48000
  }

  /** The frames of one period. */
  function Frames(fifo: seq<int>, current: int, phase: nat, rate: nat, n: nat): (r: seq<int>)
    ensures |r| == n && forall f | 0 <= f < n :: r[f] == Sample(fifo, current, Due(phase, rate, f + 1))
  {
    seq(n, f requires 0 <= f < n => Sample(fifo, current, Due(phase, rate, f + 1)))
  }

  function Taken(s: Engine): nat {
    Min(Due(s.phase, s.rate, 1024), |s.fifo|)
  }

  /** Resample one period; the accounts of the ring are left to the caller. */
  function Fill(s: Engine, p: nat): (r: Engine)
    requires p < |s.buffers|
  {
    s.(fifo := s.fifo[Taken(s)..], current := Sample(s.fifo, s.current, Due(s.phase, s.rate, 1024)),
       phase := Advance(s.phase, s.rate, 1024) % 48000,
       buffers := s.buffers[p := Frames(s.fifo, s.current, s.phase, s.rate, 1024)])
  }

  lemma {:induction false} AdvanceIs(phase: nat, rate: nat, n: nat)
    ensures Advance(phase, rate, n) == phase + rate * n
  {
    if n > 0 {
      AdvanceIs(phase, rate, n - 1);
    }
  }

  lemma {:induction false} AdvanceSplit(phase: nat, rate: nat, m: nat, n: nat)
    ensures Advance(phase, rate, m + n) == Advance(Advance(phase, rate, m), rate, n)
  {
    if n > 0 {
      AdvanceSplit(phase, rate, m, n - 1);
    }
  }

  /** Whole samples can be taken out of the phase. */
  lemma {:induction false} AdvanceWhole(a: nat, rate: nat, n: nat)
    ensures Due(a, rate, n) == a / 48000 + Due(a % 48000, rate, n)
    ensures Advance(a, rate, n) % 48000 == Advance(a % 48000, rate, n) % 48000
  {
    AdvanceIs(a, rate, n);
    AdvanceIs(a % 48000, rate, n);
    assert a == 48000 * (a / 48000) + a % 48000;
  }

  // ---------------------------------------------------------------- latency arithmetic

  function Ceil(n: nat): nat {
    (n + 47999) / 48000
  }

  /** Source samples for a full ring and for one period, rounded up. */
  function RingSamples(periods: nat, rate: nat): nat {
    Ceil(1024 * periods * rate)
  }

  function PeriodSamples(rate: nat): nat {
    Ceil(1024 * rate)
  }

  function Threshold(s: Engine): nat {
    RingSamples(s.periods, s.rate) + PeriodSamples(s.rate)
  }

  function Latency(ms: nat): (r: nat)
    ensures 1 <= r <= 250
  {
    if ms == 0 || ms > 250 then 80 else ms
  }

  function PeriodsFor(ms: nat): (p: nat)
    ensures 2 <= p <= 8
  {
    var p := Latency(ms) * 48000 / 1000 / 1024;
    if p < 2 then 2 else if p > 8 then 8 else p
  }

  function LimitFor(rate: nat, ms: nat): nat {
    var wanted := (rate * Latency(ms) + 999) / 1000;
    var least := RingSamples(PeriodsFor(ms), rate) + PeriodSamples(rate);
    Min(if wanted < least then least else wanted, 32768)
  }

  /** For every supported rate and latency, what it takes to start playing fits the limit, and the limit fits the
      FIFO. */
  lemma ThresholdFits(rate: nat, ms: nat)
    requires Rate(rate)
    ensures RingSamples(PeriodsFor(ms), rate) + PeriodSamples(rate) <= LimitFor(rate, ms) <= 32768
  {
    RingBound(PeriodsFor(ms), rate);
  }

  lemma RingBound(periods: nat, rate: nat)
    requires 2 <= periods <= 8 && Rate(rate)
    ensures RingSamples(periods, rate) <= 7527 && PeriodSamples(rate) <= 941
  {
  }

  /** A period never takes more than its rounded-up share, whatever the phase. */
  lemma PeriodShare(phase: nat, rate: nat)
    requires phase < 48000
    ensures Due(phase, rate, 1024) <= PeriodSamples(rate)
  {
    AdvanceIs(phase, rate, 1024);
  }

  // ---------------------------------------------------------------- the accounts

  function Sum(sources: seq<nat>, n: nat): nat
    requires n <= |sources|
  {
    if n == 0 then 0 else Sum(sources, n - 1) + sources[n - 1]
  }

  lemma {:induction false} SumUpdate(sources: seq<nat>, n: nat, p: nat, v: nat)
    requires n <= |sources| && p < |sources|
    ensures Sum(sources[p := v], n) == Sum(sources, n) + if p >= n then 0 else v - sources[p]
    decreases n
  {
    if n > 0 {
      SumUpdate(sources, n - 1, p, v);
    }
  }

  lemma {:induction false} SumAtLeast(sources: seq<nat>, n: nat, p: nat)
    requires p < n <= |sources|
    ensures sources[p] <= Sum(sources, n)
    decreases n
  {
    if p < n - 1 {
      SumAtLeast(sources, n - 1, p);
    }
  }

  function NoSources(): (z: seq<nat>)
    ensures |z| == 8 && Sum(z, 8) == 0
  {
    [0, 0, 0, 0, 0, 0, 0, 0]
  }

  predicate Shaped(s: Engine) {
    && |s.sources| == 8 && |s.buffers| == 8 && 2 <= s.periods <= 8 && Rate(s.rate) && s.phase < 48000
    && |s.fifo| <= 32768
  }

  /** The count of samples in the ring is the sum of the periods' counts, FIFO and ring together stay within the limit,
      and an engine that is not playing has nothing in the ring and too little in the FIFO to start. */
  predicate Inv(s: Engine) {
    && Shaped(s) && s.dma == Sum(s.sources, 8) && |s.fifo| + s.dma <= s.limit && s.next < s.periods
    && (!s.playing ==> s.sources == NoSources() && |s.fifo| < Threshold(s))
  }

  /** What a successful change of rate establishes and nothing else disturbs. */
  predicate Tuned(s: Engine) {
    Threshold(s) <= s.limit <= 32768
  }

  // ---------------------------------------------------------------- refilling

  function Refill(s: Engine, p: nat): (r: Engine)
    requires Shaped(s) && p < 8
  {
    var retired := s.sources[p];
    var left := if retired > s.dma then 0 else s.dma - retired;
    Fill(s, p).(sources := s.sources[p := Taken(s)], dma := left + Taken(s))
  }

  /** A refill moves samples from the FIFO into the ring and retires played ones: the total only falls. */
  lemma RefillInv(s: Engine, p: nat)
    requires Inv(s) && s.playing && p < 8
    ensures Inv(Refill(s, p))
    ensures |Refill(s, p).fifo| + Refill(s, p).dma == |s.fifo| + s.dma - s.sources[p]
  {
    SumUpdate(s.sources, 8, p, Taken(s));
    SumAtLeast(s.sources, 8, p);
  }

  /** Distance from the next refill to the period being played. */
  function Behind(s: Engine, current: nat): int {
    if current >= s.next then current - s.next else current + s.periods - s.next
  }

  function Next(s: Engine): nat
    requires s.periods > 0
  {
    (s.next + 1) % s.periods
  }

  /** Refill every period the hardware has left behind. */
  function Service(s: Engine, current: nat): (r: Engine)
    requires Shaped(s) && s.next < s.periods && current < s.periods
    decreases Behind(s, current)
  {
    if s.next == current then s
    else
      NextIs(s);
      Service(Refill(s, s.next).(next := Next(s)), current)
  }

  lemma NextIs(s: Engine)
    requires 2 <= s.periods && s.next < s.periods
    ensures Next(s) == if s.next + 1 == s.periods then 0 else s.next + 1
  {
  }

  lemma {:induction false} ServiceInv(s: Engine, current: nat)
    requires Inv(s) && s.playing && current < s.periods
    ensures Inv(Service(s, current)) && Service(s, current).playing && Service(s, current).next == current
    ensures Service(s, current).limit == s.limit && Threshold(Service(s, current)) == Threshold(s)
    ensures |Service(s, current).fifo| + Service(s, current).dma <= |s.fifo| + s.dma
    decreases Behind(s, current)
  {
    NextIs(s);
    if s.next != current {
      RefillInv(s, s.next);
      ServiceInv(Refill(s, s.next).(next := Next(s)), current);
    }
  }

  function Forward(position: nat, previous: nat, bytes: nat): int {
    if position >= previous then position - previous else bytes - previous + position
  }

  /** The position the driver believes, from the two that the hardware reports. */
  function Believed(s: Engine, buffer: nat, register: nat): nat
    requires s.periods > 0
  {
    var bytes := s.periods * 4096;
    var link := register % bytes;
    if buffer >= bytes then link
    else
      var a, b := Forward(buffer, s.last, bytes), Forward(link, s.last, bytes);
      if a == 0 then (if b < bytes / 2 then link else buffer)
      else if b == 0 then (if a < bytes / 2 then buffer else link)
      else if a >= bytes / 2 then link
      else if b >= bytes / 2 then buffer
      else if a <= b then buffer else link
  }

  /** Whatever the hardware reports, the period played is an active one. */
  lemma BelievedInside(s: Engine, buffer: nat, register: nat)
    requires 2 <= s.periods <= 8
    ensures Believed(s, buffer, register) / 4096 < s.periods
  {
    var bytes := s.periods * 4096;
    assert Believed(s, buffer, register) < bytes;
  }

  function Poll(s: Engine, buffer: nat, register: nat): Engine
    requires Shaped(s) && s.next < s.periods
  {
    if !s.playing then s
    else
      BelievedInside(s, buffer, register);
      Service(s, Believed(s, buffer, register) / 4096).(last := Believed(s, buffer, register))
  }

  lemma PollInv(s: Engine, buffer: nat, register: nat)
    requires Inv(s)
    ensures var r := Poll(s, buffer, register);
            Inv(r) && r.playing == s.playing && r.limit == s.limit && Threshold(r) == Threshold(s)
  {
    if s.playing {
      BelievedInside(s, buffer, register);
      ServiceInv(s, Believed(s, buffer, register) / 4096);
    }
  }

  // ---------------------------------------------------------------- starting

  /** The engine after the first n periods have been filled. */
  function Primed(s: Engine, n: nat): (r: Engine)
    requires n <= 8 && |s.sources| == 8 && |s.buffers| == 8
    ensures |r.sources| == 8 && |r.buffers| == 8
    decreases n
  {
    if n == 0 then
      s.(phase := if s.rate <= 48000 then 48000 - s.rate else 0, current := 0, dma := 0, sources := NoSources())
    else
      PrimeOne(Primed(s, n - 1), n - 1)
  }

  function PrimeOne(s: Engine, p: nat): (r: Engine)
    requires p < |s.sources| && p < |s.buffers|
    ensures |r.sources| == |s.sources| && |r.buffers| == |s.buffers|
  {
    Fill(s, p).(sources := s.sources[p := Taken(s)], dma := s.dma + Taken(s))
  }

  function Start(s: Engine): Engine
    requires Shaped(s)
  {
    Primed(s, s.periods).(next := 0, last := 0, playing := true)
  }

  /** How many samples the first g frames of playback are due: one at once, then one each time the product passes a
      multiple of 48000. */
  function DueFromStart(rate: nat, g: nat): nat
    requires rate <= 48000
  {
    Due(48000 - rate, rate, g)
  }

  lemma DueFromStartIs(rate: nat, g: nat)
    requires rate <= 48000 && g > 0
    ensures DueFromStart(rate, g) == 1 + rate * (g - 1) / 48000
  {
    AdvanceIs(48000 - rate, rate, g);
    assert rate * g == rate * (g - 1) + rate;
  }

  lemma DueMonotone(rate: nat, g: nat, h: nat)
    requires rate <= 48000 && g <= h
    ensures DueFromStart(rate, g) <= DueFromStart(rate, h)
    decreases h
  {
    if g < h {
      DueMonotone(rate, g, h - 1);
    }
  }

  /** A full ring is due no more than its rounded-up share. */
  lemma RingShare(periods: nat, rate: nat)
    requires Rate(rate) && 2 <= periods <= 8
    ensures DueFromStart(rate, 1024 * periods) <= RingSamples(periods, rate)
  {
    DueFromStartIs(rate, 1024 * periods);
    assert 1024 * periods * rate == rate * (1024 * periods);
  }

  /** Of the samples of `stream`, d have been due; the others are queued, and this is the phase. */
  ghost predicate Tracks(r: Engine, stream: seq<int>, d: nat, phase: nat) {
    d <= |stream| && r.fifo == stream[d..] && r.phase == phase < 48000 && r.current == Sample(stream, 0, d)
  }

  /** Of the samples s had queued, filling n periods has taken d, all of them now in the ring, and left this phase. */
  ghost predicate Filled(s: Engine, r: Engine, n: nat, d: nat, phase: nat) {
    && Tracks(r, s.fifo, d, phase)
    && |r.sources| == 8 && |r.buffers| == 8 && r.dma == Sum(r.sources, 8) == d
    && r.rate == s.rate && r.periods == s.periods && r.limit == s.limit && r.playing == s.playing
    && forall p | n <= p < 8 :: r.sources[p] == 0
  }

  lemma FilledNext(s: Engine, r: Engine, n: nat, d: nat, phase: nat, e: nat, phase': nat)
    requires Filled(s, r, n, d, phase) && n < 8 && e == d + Due(phase, s.rate, 1024) <= |s.fifo|
    requires phase' == Advance(phase, s.rate, 1024) % 48000
    ensures Filled(s, PrimeOne(r, n), n + 1, e, phase')
  {
    FillFrom(r, n, s.fifo, d, phase, e);
    SumUpdate(r.sources, 8, n, Taken(r));
  }

  function PhaseFromStart(rate: nat, g: nat): nat
    requires rate <= 48000
  {
    Advance(48000 - rate, rate, g) % 48000
  }

  /** While the queue lasts, n primed periods have consumed exactly what is due, without silence. */
  lemma {:induction false} PrimedIs(s: Engine, n: nat, g: nat)
    requires Shaped(s) && n <= 8 && g == 1024 * n && DueFromStart(s.rate, g) <= |s.fifo|
    ensures Filled(s, Primed(s, n), n, DueFromStart(s.rate, g), PhaseFromStart(s.rate, g))
    decreases n
  {
    if n > 0 {
      var h: nat := g - 1024;
      DueMonotone(s.rate, h, g);
      PrimedIs(s, n - 1, h);
      PeriodSplit(s.rate, h, g);
      FilledNext(s, Primed(s, n - 1), n - 1, DueFromStart(s.rate, h), PhaseFromStart(s.rate, h),
                 DueFromStart(s.rate, g), PhaseFromStart(s.rate, g));
    }
  }

  lemma PeriodSplit(rate: nat, h: nat, g: nat)
    requires rate <= 48000 && g == h + 1024
    ensures DueFromStart(rate, g) == DueFromStart(rate, h) + Due(PhaseFromStart(rate, h), rate, 1024)
    ensures PhaseFromStart(rate, g) == Advance(PhaseFromStart(rate, h), rate, 1024) % 48000
  {
    DueSplit(rate, h, 1024);
    PhaseSplit(rate, h, 1024);
  }

  /** Filling a period from a queue of which d samples have gone already. */
  lemma FillFrom(r: Engine, p: nat, stream: seq<int>, d: nat, phase: nat, e: nat)
    requires p < |r.buffers| && Tracks(r, stream, d, phase) && e == d + Due(phase, r.rate, 1024) <= |stream|
    ensures Taken(r) == e - d && Tracks(Fill(r, p), stream, e, Advance(phase, r.rate, 1024) % 48000)
  {
    SampleShift(stream, d, e - d);
  }

  lemma SampleShift(fifo: seq<int>, d: nat, j: nat)
    requires d + j <= |fifo|
    ensures Sample(fifo[d..], Sample(fifo, 0, d), j) == Sample(fifo, 0, d + j)
  {
  }

  lemma DueSplit(rate: nat, g: nat, f: nat)
    requires rate <= 48000
    ensures DueFromStart(rate, g + f) ==
            DueFromStart(rate, g) + Due(PhaseFromStart(rate, g), rate, f)
  {
    AdvanceSplit(48000 - rate, rate, g, f);
    AdvanceWhole(Advance(48000 - rate, rate, g), rate, f);
  }

  lemma PhaseSplit(rate: nat, g: nat, f: nat)
    requires rate <= 48000
    ensures Advance(PhaseFromStart(rate, g), rate, f) % 48000 == PhaseFromStart(rate, g + f)
  {
    AdvanceSplit(48000 - rate, rate, g, f);
    AdvanceWhole(Advance(48000 - rate, rate, g), rate, f);
  }

  /** Starting with a primed queue fills the ring without silence, moves every sample it takes into the ring, and leaves
      at least one whole period of samples in the FIFO. */
  lemma StartOk(s: Engine)
    requires Shaped(s) && Threshold(s) <= |s.fifo| <= s.limit
    ensures Inv(Start(s)) && Start(s).limit == s.limit && Threshold(Start(s)) == Threshold(s)
    ensures |Start(s).fifo| + Start(s).dma == |s.fifo|
    ensures |Start(s).fifo| >= PeriodSamples(s.rate)
  {
    RingShare(s.periods, s.rate);
    PrimedIs(s, s.periods, 1024 * s.periods);
  }

  /** So the first refill after starting finds all the samples it is due. */
  lemma FirstRefillFull(s: Engine)
    requires Shaped(s) && Threshold(s) <= |s.fifo| <= s.limit
    ensures Taken(Start(s)) == Due(Start(s).phase, Start(s).rate, 1024)
  {
    StartOk(s);
    RingShare(s.periods, s.rate);
    PrimedIs(s, s.periods, 1024 * s.periods);
    PeriodShare(Start(s).phase, s.rate);
  }

  // ---------------------------------------------------------------- the interface

  function Room(s: Engine): nat {
    var queued := |s.fifo| + s.dma;
    Min(if |s.fifo| < 32768 then 32768 - |s.fifo| else 0, if queued < s.limit then s.limit - queued else 0)
  }

  /** Accept what fits and start once enough is queued; the second result is how many bytes were taken. */
  function Write(s: Engine, data: seq<int>, buffer: nat, register: nat): (r: (Engine, nat))
    requires Inv(s)
  {
    PollInv(s, buffer, register);
    var s1 := Poll(s, buffer, register);
    var n := Min(|data|, Room(s1));
    var s2 := s1.(fifo := s1.fifo + data[..n]);
    (if !s2.playing && |s2.fifo| >= Threshold(s2) then Start(s2) else s2, n)
  }

  /** Writing keeps the accounts. Once a rate has been set, a writer that keeps offering data always gets on: every
      write either takes something or finds the engine playing. */
  lemma WriteInv(s: Engine, data: seq<int>, buffer: nat, register: nat)
    requires Inv(s)
    ensures var r := Write(s, data, buffer, register);
            && Inv(r.0) && r.0.limit == s.limit && Threshold(r.0) == Threshold(s)
            && (Tuned(s) && data != [] && !s.playing ==> r.1 > 0)
            && (Tuned(s) && !r.0.playing ==> !s.playing && |r.0.fifo| == |s.fifo| + r.1)
  {
    PollInv(s, buffer, register);
    var s1 := Poll(s, buffer, register);
    var n := Min(|data|, Room(s1));
    var s2 := s1.(fifo := s1.fifo + data[..n]);
    if !s2.playing && |s2.fifo| >= Threshold(s2) {
      StartOk(s2);
    }
  }

  /** Forget everything queued; `good` says whether the hardware stream could be reset. */
  function Flush(s: Engine, good: bool): Engine
    requires s.rate <= 48000
  {
    if !good then s
    else s.(fifo := [], dma := 0, phase := 48000 - s.rate, current := 0, next := 0, last := 0, sources := NoSources(),
            buffers := seq(8, k => seq(1024, j => 0)), playing := false)
  }

  function SetRate(s: Engine, rate: nat, ms: nat, good: bool): Engine {
    if !Rate(rate) then s
    else Flush(s.(periods := PeriodsFor(ms), limit := LimitFor(rate, ms), rate := rate), good)
  }

  lemma PositiveThreshold(periods: nat, rate: nat)
    requires 2 <= periods <= 8 && Rate(rate)
    ensures RingSamples(periods, rate) + PeriodSamples(rate) > 0
  {
  }

  lemma FlushInv(s: Engine, good: bool)
    requires Inv(s)
    ensures Inv(Flush(s, good)) && Flush(s, good).limit == s.limit && Threshold(Flush(s, good)) == Threshold(s)
  {
    PositiveThreshold(s.periods, s.rate);
  }

  /** After a rate has been set successfully the accounts hold and playback can start, whatever the state was before. */
  lemma SetRateTunes(s: Engine, rate: nat, ms: nat)
    requires Rate(rate)
    ensures Inv(SetRate(s, rate, ms, true)) && Tuned(SetRate(s, rate, ms, true))
  {
    ThresholdFits(rate, ms);
    PositiveThreshold(PeriodsFor(ms), rate);
  }

  /** A change of rate whose reset fails has already changed the rate, the ring size and the limit, but has cleared
      nothing.  The accounts survive that exactly when what is queued happens to fit the new settings. */
  lemma SetRateFailure(s: Engine, rate: nat, ms: nat)
    requires Inv(s) && Rate(rate)
    ensures Inv(SetRate(s, rate, ms, false)) <==>
            && |s.fifo| + s.dma <= LimitFor(rate, ms) && s.next < PeriodsFor(ms)
            && (s.playing || |s.fifo| < RingSamples(PeriodsFor(ms), rate) + PeriodSamples(rate))
  {
  }

  /** And it need not: 3000 bytes queued at 44.1 kHz do not fit 80 ms at 11.025 kHz. */
  lemma SetRateFailureBreaks(s: Engine)
    requires Inv(s) && |s.fifo| == 3000
    ensures !Inv(SetRate(s, 11025, 80, false))
  {
    SetRateFailure(s, 11025, 80);
    assert LimitFor(11025, 80) == 942;
  }

  lemma SuchAState()
    ensures var s := SetRate(Initial(), 44100, 80, true);
            Inv(s) && Inv(Write(s, seq(3000, k => 128), 0, 0).0) && |Write(s, seq(3000, k => 128), 0, 0).0.fifo| == 3000
  {
    var s := SetRate(Initial(), 44100, 80, true);
    SetRateTunes(Initial(), 44100, 80);
    assert s.limit == 3764 && Threshold(s) == 3764;
    WriteInv(s, seq(3000, k => 128), 0, 0);
  }

  // ---------------------------------------------------------------- the state at boot, and runs

  /** The static initial values: 11025 Hz, three periods and a limit of 882 samples. */
  function Initial(): Engine {
    Engine([], 0, 0, 11025, 3, 882, 0, NoSources(), seq(8, k => seq(1024, j => 0)), 0, 0, false)
  }

  datatype Op =
    | WriteOp(data: seq<int>, buffer: nat, register: nat)
    | PollOp(buffer: nat, register: nat)
    | FlushOp(good: bool)
    | SetRateOp(rate: nat, ms: nat)

  ghost function Step(s: Engine, op: Op): (r: Engine)
    requires Inv(s)
    ensures Inv(r)
  {
    match op
    case WriteOp(data, buffer, register) =>
      WriteInv(s, data, buffer, register);
      Write(s, data, buffer, register).0
    case PollOp(buffer, register) =>
      PollInv(s, buffer, register);
      Poll(s, buffer, register)
    case FlushOp(good) =>
      FlushInv(s, good);
      Flush(s, good)
    case SetRateOp(rate, ms) =>
      if Rate(rate) then (SetRateTunes(s, rate, ms); SetRate(s, rate, ms, true)) else s
  }

  ghost function Run(s: Engine, ops: seq<Op>): (r: Engine)
    requires Inv(s)
    ensures Inv(r)
    decreases |ops|
  {
    if ops == [] then s else Run(Step(s, ops[0]), ops[1..])
  }

  predicate NoRateChange(ops: seq<Op>) {
    forall k | 0 <= k < |ops| :: !ops[k].SetRateOp?
  }

  lemma StepKeepsSettings(s: Engine, op: Op)
    requires Inv(s) && !op.SetRateOp?
    ensures Step(s, op).limit == s.limit && Threshold(Step(s, op)) == Threshold(s)
  {
    match op
    case WriteOp(data, buffer, register) => WriteInv(s, data, buffer, register);
    case PollOp(buffer, register) => PollInv(s, buffer, register);
    case FlushOp(good) => FlushInv(s, good);
    case SetRateOp(rate, ms) =>
  }

  /** Once tuned, always tuned: over any run in which changes of rate succeed, what it takes to start fits the limit,
      and FIFO and ring together stay within it. */
  lemma {:induction false} StaysTuned(s: Engine, ops: seq<Op>)
    requires Inv(s) && Tuned(s)
    ensures Tuned(Run(s, ops)) && |Run(s, ops).fifo| + Run(s, ops).dma <= Run(s, ops).limit <= 32768
    decreases |ops|
  {
    if ops != [] {
      match ops[0] {
        case SetRateOp(rate, ms) =>
          if Rate(rate) {
            SetRateTunes(s, rate, ms);
          }
        case _ => StepKeepsSettings(s, ops[0]);
      }
      StaysTuned(Step(s, ops[0]), ops[1..]);
    }
  }

  /** A writer that keeps offering data always gets playback started: after a change of rate, at the latest with as many
      non-empty writes as samples are missing. */
  lemma {:induction false} RetryingWriterStarts(s: Engine, ops: seq<Op>)
    requires Inv(s) && Tuned(s) && forall k | 0 <= k < |ops| :: ops[k].WriteOp? && ops[k].data != []
    requires s.playing || |s.fifo| + |ops| >= Threshold(s)
    ensures Run(s, ops).playing
    decreases |ops|
  {
    if ops != [] {
      WriteInv(s, ops[0].data, ops[0].buffer, ops[0].register);
      RetryingWriterStarts(Step(s, ops[0]), ops[1..]);
    }
  }

  lemma NeverStartsStep(s: Engine, op: Op)
    requires Inv(s) && !s.playing && s.limit < Threshold(s) && !op.SetRateOp?
    ensures !Step(s, op).playing
  {
    match op
    case WriteOp(data, buffer, register) => WriteInv(s, data, buffer, register);
    case _ =>
  }

  lemma {:induction false} NeverStarts(s: Engine, ops: seq<Op>)
    requires Inv(s) && !s.playing && s.limit < Threshold(s) && NoRateChange(ops)
    ensures !Run(s, ops).playing
    decreases |ops|
  {
    if ops != [] {
      NeverStartsStep(s, ops[0]);
      StepKeepsSettings(s, ops[0]);
      NeverStarts(Step(s, ops[0]), ops[1..]);
    }
  }

  /** With the settings it boots with the engine never plays: its limit of 882 samples is below the 942 it takes to
      start, so no sequence of writes is enough until a rate is set. */
  lemma BootNeverStarts(ops: seq<Op>)
    requires NoRateChange(ops)
    ensures Inv(Initial()) && !Run(Initial(), ops).playing
  {
    assert Threshold(Initial()) == 942;
    NeverStarts(Initial(), ops);
  }
}

/** The audio engine in the driver's own form: counters and buffers updated by loops, proved against module
    HdaEngine. */
module HdaKernel {
  import opened Common
  import opened HdaEngine
  import opened HdaAnswers

  class Driver {
    var fifo: seq<int>
    var current: int
    var phase: nat
    var rate: nat
    var periods: nat
    var limit: nat
    var dma: nat
    var sources: seq<nat>
    var buffers: seq<seq<int>>
    var next: nat
    var last: nat
    var playing: bool

    ghost function View(): Engine
      reads this
    {
      Engine(fifo, current, phase, rate, periods, limit, dma, sources, buffers, next, last, playing)
    }

    ghost predicate Valid()
      reads this
    {
      Inv(View())
    }

    constructor ()
      ensures Valid() && View() == Initial()
    {
      fifo, current, phase, rate, periods, limit, dma := [], 0, 0, 11025, 3, 882, 0;
      sources, buffers, next, last, playing := NoSources(), seq(8, k => seq(1024, j => 0)), 0, 0, false;
      new;
      BootNeverStarts([]);
    }

    /** Take one sample from the FIFO, or silence; says whether there was one. */
    method TakeSample() returns (taken: nat)
      modifies this`fifo, this`current
      ensures if old(fifo) == [] then fifo == [] && current == 0 && taken == 0
              else fifo == old(fifo)[1..] && current == Convert(old(fifo)[0]) && taken == 1
    {
      if |fifo| > 0 {
        current := (fifo[0] - 128) * 256;
        fifo := fifo[1..];
        return 1;
      }
      current := 0;
      taken := 0;
    }

    /** Resample one period, frame by frame. */
    method FillPeriod(p: nat) returns (taken: nat)
      requires p < |buffers| && phase < 48000 && rate <= 48000
      modifies this`fifo, this`current, this`phase, this`buffers
      ensures View() == Fill(old(View()), p) && taken == Taken(old(View()))
    {
      ghost var s := View();
      var frames: seq<int> := [];
      taken := 0;
      for frame := 0 to 1024
        invariant phase == Advance(s.phase, s.rate, frame) % 48000 && buffers == s.buffers
        invariant taken == Min(Due(s.phase, s.rate, frame), |s.fifo|) && fifo == s.fifo[taken..]
        invariant current == Sample(s.fifo, s.current, Due(s.phase, s.rate, frame))
        invariant frames == Frames(s.fifo, s.current, s.phase, s.rate, frame)
      {
        FrameStep(s.phase, s.rate, frame);
        phase := phase + rate;
        if phase >= 48000 {
          phase := phase - 48000;
          var one := TakeSample();
          taken := taken + one;
        }
        FramesNext(s.fifo, s.current, s.phase, s.rate, frame);
        frames := frames + [current];
      }
      buffers := buffers[p := frames];
    }

    method RefillPeriod(p: nat)
      requires Shaped(View()) && p < 8
      modifies this
      ensures View() == Refill(old(View()), p)
    {
      var retired := sources[p];
      dma := if retired > dma then 0 else dma - retired;
      var taken := FillPeriod(p);
      sources := sources[p := taken];
      dma := dma + taken;
    }

    /** Refill the periods up to the one being played. */
    method CatchUp(now: nat)
      requires Valid() && playing && now < periods
      modifies this
      ensures View() == Service(old(View()), now)
    {
      ghost var s := View();
      while next != now
        invariant Valid() && playing && now < periods && Service(View(), now) == Service(s, now)
        decreases Behind(View(), now)
      {
        ghost var v := View();
        CatchUpStep(v, now);
        RefillPeriod(next);
        next := (next + 1) % periods;
        assert View() == Refill(v, v.next).(next := Next(v));
      }
    }

    /** Catch up with the hardware: refill every period it has finished with. */
    method ServiceStream(buffer: nat, register: nat)
      requires Valid()
      modifies this
      ensures Valid() && View() == Poll(old(View()), buffer, register)
    {
      PollInv(View(), buffer, register);
      if !playing {
        return;
      }
      BelievedInside(View(), buffer, register);
      var position := DmaPosition(buffer, register);
      CatchUp(position / 4096);
      last := position;
    }

    method DmaPosition(buffer: nat, register: nat) returns (position: nat)
      requires 2 <= periods <= 8
      ensures position == Believed(View(), buffer, register)
    {
      var bytes := periods * 4096;
      var link := register % bytes;
      if buffer >= bytes {
        return link;
      }
      var a, b := Forward(buffer, last, bytes), Forward(link, last, bytes);
      if a == 0 {
        return if b < bytes / 2 then link else buffer;
      }
      if b == 0 {
        return if a < bytes / 2 then buffer else link;
      }
      if a >= bytes / 2 {
        return link;
      }
      if b >= bytes / 2 {
        return buffer;
      }
      position := if a <= b then buffer else link;
    }

    /** Fill the periods of the ring one after the other. */
    method PrimeRing()
      requires Shaped(View())
      modifies this
      ensures View() == Primed(old(View()), old(periods)) && periods == old(periods)
    {
      ghost var s := View();
      phase := 48000 - rate;
      current, dma, sources := 0, 0, NoSources();
      for i := 0 to periods
        invariant View() == Primed(s, i) && phase < 48000 && rate == s.rate && periods == s.periods
      {
        var taken := FillPeriod(i);
        sources := sources[i := taken];
        dma := dma + taken;
        PrimedSettings(s, i + 1);
      }
    }

    /** Fill the whole ring and set the hardware going. */
    method StartPlayback()
      requires Shaped(View()) && Threshold(View()) <= |fifo| <= limit
      modifies this
      ensures Valid() && View() == Start(old(View()))
    {
      StartOk(View());
      PrimeRing();
      next, last, playing := 0, 0, true;
    }

    /** Put bytes at the end of the FIFO. */
    method Enqueue(data: seq<int>, n: nat)
      requires n <= |data|
      modifies this`fifo
      ensures fifo == old(fifo) + data[..n]
    {
      for i := 0 to n
        invariant fifo == old(fifo) + data[..i]
      {
        fifo := fifo + [data[i]];
      }
    }

    /** Queue as many bytes as fit, and start playing once enough are queued. */
    method HdaWrite(data: seq<int>, buffer: nat, register: nat) returns (written: nat)
      requires Valid()
      modifies this
      ensures Valid() && View() == Write(old(View()), data, buffer, register).0
      ensures written == Write(old(View()), data, buffer, register).1
      ensures old(Tuned(View())) && data != [] && !old(playing) ==> written > 0
      ensures written <= |data| && Total(View()) <= limit
      ensures playing <==> old(playing) || |old(fifo)| + written >= old(Threshold(View()))
    {
      WriteAnswer(View(), data, buffer, register);
      WriteInv(View(), data, buffer, register);
      ServiceStream(buffer, register);
      var available := 32768 - |fifo|;
      var queued := |fifo| + dma;
      var latencyAvailable := if queued < limit then limit - queued else 0;
      if available > latencyAvailable {
        available := latencyAvailable;
      }
      written := if |data| < available then |data| else available;
      Enqueue(data, written);
      if !playing && |fifo| >= RingSamples(periods, rate) + PeriodSamples(rate) {
        StartPlayback();
      }
    }

    /** Drop everything queued; fails, changing nothing, when the hardware stream cannot be reset. */
    method HdaFlush(good: bool) returns (ret: int)
      requires rate <= 48000 && |buffers| == 8
      modifies this
      ensures View() == Flush(old(View()), good) && (ret == 0 <==> good) && (ret == 0 || ret == -1)
      ensures if ret == 0 then Empty(View()) && SameSettings(old(View()), View()) else View() == old(View())
    {
      FlushAnswer(View(), good);
      if !good {
        return -1;
      }
      fifo, dma, phase, current, next, last := [], 0, 48000 - rate, 0, 0, 0;
      sources := NoSources();
      for i := 0 to 8
        invariant |buffers| == 8 && forall k | 0 <= k < i :: buffers[k] == seq(1024, j => 0)
        invariant View() == old(View()).(fifo := [], dma := 0, phase := phase, current := 0, next := 0, last := 0,
                                         sources := NoSources(), buffers := buffers)
        invariant phase == 48000 - old(rate)
      {
        buffers := buffers[i := seq(1024, j => 0)];
      }
      assert buffers == seq(8, k => seq(1024, j => 0));
      playing := false;
      ret := 0;
    }

    /** Set the source rate and the latency, in any state, also one that a failed change has left behind. Success leaves
        an engine that a persistent writer can start. */
    method HdaSetRate(newRate: nat, latencyMs: nat, good: bool) returns (ret: int)
      requires |buffers| == 8
      modifies this
      ensures View() == SetRate(old(View()), newRate, latencyMs, good)
      ensures ret == 0 <==> Rate(newRate) && good
      ensures ret == 0 ==> Valid() && Tuned(View()) && Empty(View())
    {
      if newRate != 11025 && newRate != 22050 && newRate != 44100 {
        return -1;
      }
      SetRateTunes(View(), newRate, latencyMs);
      periods, limit := Settings(newRate, latencyMs);
      rate := newRate;
      ret := HdaFlush(good);
      if ret == 0 {
        phase := 48000 - newRate;
      }
    }

    /** Ring size and queue limit for a rate and a latency. */
    method Settings(newRate: nat, latencyMs: nat) returns (p: nat, queueLimit: nat)
      ensures p == PeriodsFor(latencyMs) && queueLimit == LimitFor(newRate, latencyMs)
    {
      var ms := if latencyMs == 0 || latencyMs > 250 then 80 else latencyMs;
      p := ms * 48000 / 1000 / 1024;
      if p < 2 {
        p := 2;
      }
      if p > 8 {
        p := 8;
      }
      queueLimit := QueueLimit(newRate, ms, p);
    }

    method QueueLimit(newRate: nat, ms: nat, p: nat) returns (most: nat)
      ensures var wanted, least := (newRate * ms + 999) / 1000, RingSamples(p, newRate) + PeriodSamples(newRate);
              most == Min(if wanted < least then least else wanted, 32768)
    {
      most := (newRate * ms + 999) / 1000;
      var least := (1024 * p * newRate + 47999) / 48000 + (1024 * newRate + 47999) / 48000;
      if most < least {
        most := least;
      }
      if most > 32768 {
        most := 32768;
      }
    }
  }

  lemma CatchUpStep(s: Engine, now: nat)
    requires Inv(s) && s.playing && now < s.periods && s.next != now
    ensures var r := Refill(s, s.next).(next := Next(s));
            && Inv(r) && r.playing && r.periods == s.periods && 0 <= Behind(r, now) < Behind(s, now)
            && Service(r, now) == Service(s, now)
  {
    NextIs(s);
    RefillInv(s, s.next);
  }

  lemma FrameStep(phase: nat, rate: nat, n: nat)
    requires rate <= 48000
    ensures var a := Advance(phase, rate, n) % 48000 + rate;
            && Due(phase, rate, n + 1) == Due(phase, rate, n) + (if a >= 48000 then 1 else 0)
            && Advance(phase, rate, n + 1) % 48000 == if a >= 48000 then a - 48000 else a
  {
    var total := Advance(phase, rate, n);
    assert total == 48000 * (total / 48000) + total % 48000;
  }

  lemma FramesNext(fifo: seq<int>, current: int, phase: nat, rate: nat, n: nat)
    ensures Frames(fifo, current, phase, rate, n + 1) ==
            Frames(fifo, current, phase, rate, n) + [Sample(fifo, current, Due(phase, rate, n + 1))]
  {
  }

  lemma {:induction false} PrimedSettings(s: Engine, n: nat)
    requires Shaped(s) && n <= 8
    ensures var r := Primed(s, n);
            r.rate == s.rate && r.periods == s.periods && r.limit == s.limit && r.playing == s.playing
              && r.phase < 48000
            && r.next == s.next && r.last == s.last
    decreases n
  {
    if n > 0 {
      PrimedSettings(s, n - 1);
    }
  }
}

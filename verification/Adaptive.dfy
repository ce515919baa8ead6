/**
  The adaptive chunk-size controller of `crates/rdlp-downloader/src/adaptive.rs`, with rates as reals. A call
  holds the controller's lock throughout, so every interleaving of workers is one sequence of calls.
*/
module Adaptive {
  import opened Wrappers
  import opened Bits

  const CHUNK_LEVELS: seq<nat> :=
    [0x1_0000, 0x2_0000, 0x4_0000, 0x8_0000, 0x10_0000, 0x20_0000, 0x40_0000, 0x80_0000]
  const MIN_CHUNK_LEVEL: nat := 2
  const MAX_CHUNK_LEVEL: nat := 7
  const MD_CHUNK_DELTA: int := -2
  const MAX_HISTORY: nat := 8
  const EWMA_ALPHA: real := 0.3
  const MD_THRESHOLD: real := 0.30
  const NOISE_THRESHOLD: real := 0.10
  const SLOW_START_PLATEAU_LIMIT: nat := 3

  datatype Phase = SlowStart | Steady

  datatype Mode = HttpChunked | HlsSegments

  /** Start inclusive, end exclusive. */
  datatype ChunkRequest = ChunkRequest(start: nat, end: nat)

  datatype Config = Config(total: U64, interval: nat, initialLevel: nat, mode: Mode)

  /** The part of the state that the reports change. */
  datatype Control = Control(level: nat, history: seq<real>, sinceAdjust: nat, phase: Phase, plateaus: nat,
                             lastEwma: Option<real>)

  function Clamp(x: int, lo: int, hi: int): int
    requires lo <= hi
  {
    if x < lo then lo else if x > hi then hi else x
  }

  function Initial(cfg: Config): Control {
    Control(Clamp(cfg.initialLevel, MIN_CHUNK_LEVEL, MAX_CHUNK_LEVEL), [], 0, SlowStart, 0, None)
  }

  // ---- What a report does ---------------------------------------------------------------------------------

  /** The level moves by `delta` within its bounds, and not at all for playlist segments. */
  function Bumped(mode: Mode, level: nat, delta: int): nat {
    if mode == HlsSegments then level else Clamp(level + delta, MIN_CHUNK_LEVEL, MAX_CHUNK_LEVEL)
  }

  /** The weighted average of a history, oldest sample first. */
  function Ewma(history: seq<real>): real
    requires history != []
  {
    var n := |history| - 1;
    if n == 0 then history[0] else EWMA_ALPHA * history[n] + (1.0 - EWMA_ALPHA) * Ewma(history[..n])
  }

  function Sampled(history: seq<real>, bytes: nat, secs: real): seq<real> {
    if secs <= 0.0 then history
    else (if |history| >= MAX_HISTORY then history[1..] else history) + [bytes as real / secs]
  }

  function AfterSlowStart(mode: Mode, c: Control, ewma: real, prev: Option<real>): Control {
    if prev.None? then
      c.(level := Bumped(mode, c.level, 2))
    else if ewma > prev.value then
      c.(level := Bumped(mode, c.level, 2), plateaus := 0)
    else if ewma < prev.value then
      c.(level := Bumped(mode, c.level, MD_CHUNK_DELTA), phase := Steady, plateaus := 0)
    else if c.plateaus + 1 >= SLOW_START_PLATEAU_LIMIT then
      c.(phase := Steady, plateaus := 0)
    else
      c.(plateaus := c.plateaus + 1)
  }

  function SteadyDelta(ewma: real, prev: real): int {
    if prev == 0.0 then 1
    else
      var ratio := (prev - ewma) / prev;
      if ratio > MD_THRESHOLD then MD_CHUNK_DELTA else if ratio > NOISE_THRESHOLD then 0 else 1
  }

  function Adjusted(mode: Mode, c: Control): Control {
    if c.history == [] then c.(sinceAdjust := 0)
    else
      var ewma := Ewma(c.history);
      var d := c.(sinceAdjust := 0, lastEwma := Some(ewma));
      if c.phase == SlowStart then AfterSlowStart(mode, d, ewma, c.lastEwma)
      else d.(level := Bumped(mode, c.level, SteadyDelta(ewma, c.lastEwma.UnwrapOr(0.0))))
  }

  /** A report decides when it completes an interval. */
  predicate Decides(cfg: Config, c: Control) {
    c.sinceAdjust + 1 >= cfg.interval
  }

  function Reported(cfg: Config, c: Control, bytes: nat, secs: real): Control {
    var d := c.(history := Sampled(c.history, bytes, secs), sinceAdjust := c.sinceAdjust + 1);
    if Decides(cfg, c) then Adjusted(cfg.mode, d) else d
  }

  /** A segment's playing time over its download time, when both are positive. */
  function Ratio(before: Option<real>, secs: real, segmentSecs: Option<real>): Option<real> {
    if segmentSecs.Some? && segmentSecs.value > 0.0 && secs > 0.0 then Some(segmentSecs.value / secs) else before
  }

  // ---- Runs -----------------------------------------------------------------------------------------------

  datatype Call = NextChunk | Report(bytes: nat, secs: real)

  /** What has happened: the state, the ranges handed out, and how many reports and adjustments there were. */
  datatype Session = Session(control: Control, given: nat, issued: seq<ChunkRequest>, reports: nat, adjusts: nat)

  function Offered(cfg: Config, s: Session): Option<ChunkRequest>
    requires s.control.level < |CHUNK_LEVELS|
  {
    if s.given >= cfg.total then None
    else
      var wanted := s.given + CHUNK_LEVELS[s.control.level];
      Some(ChunkRequest(s.given, if wanted < cfg.total then wanted else cfg.total))
  }

  function After(cfg: Config, s: Session, call: Call): Session
    requires s.control.level < |CHUNK_LEVELS|
  {
    match call
    case NextChunk => (
      match Offered(cfg, s)
      case None => s
      case Some(chunk) => s.(given := chunk.end, issued := s.issued + [chunk])
    )
    case Report(bytes, secs) =>
      s.(control := Reported(cfg, s.control, bytes, secs), reports := s.reports + 1,
         adjusts := s.adjusts + if Decides(cfg, s.control) then 1 else 0)
  }

  /** The session after the calls, in the order the lock was taken. */
  function Run(cfg: Config, calls: seq<Call>): (s: Session)
    ensures MIN_CHUNK_LEVEL <= s.control.level <= MAX_CHUNK_LEVEL
  {
    if calls == [] then Session(Initial(cfg), 0, [], 0, 0)
    else After(cfg, Run(cfg, calls[..|calls| - 1]), calls[|calls| - 1])
  }

  lemma RunGrows(cfg: Config, calls: seq<Call>, call: Call)
    ensures Run(cfg, calls + [call]) == After(cfg, Run(cfg, calls), call)
  {
    assert (calls + [call])[..|calls|] == calls;
  }

  /** The levels, without the table: 64 KiB, doubled at every level. */
  lemma LevelSizes(level: nat)
    requires level <= 7
    ensures CHUNK_LEVELS[level] == 0x1_0000 * Pow2(level)
    ensures 2 <= level ==> 0x4_0000 <= CHUNK_LEVELS[level] <= 0x80_0000
  {
    assert Pow2(0) == 1 && Pow2(1) == 2 && Pow2(2) == 4 && Pow2(3) == 8;
    assert Pow2(4) == 16 && Pow2(5) == 32 && Pow2(6) == 64 && Pow2(7) == 128;
  }

  function Lesser(a: int, b: int): int {
    if a < b then a else b
  }

  lemma ChunkGrows(cfg: Config, calls: seq<Call>)
    ensures Run(cfg, calls + [NextChunk]).control == Run(cfg, calls).control
    ensures var offered := Offered(cfg, Run(cfg, calls));
      Run(cfg, calls + [NextChunk]).given == if offered.None? then Run(cfg, calls).given else offered.value.end
  {
    hide Offered, Reported;
    RunGrows(cfg, calls, NextChunk);
  }

  lemma ReportGrows(cfg: Config, calls: seq<Call>, bytes: nat, secs: real)
    ensures Run(cfg, calls + [Report(bytes, secs)]).control == Reported(cfg, Run(cfg, calls).control, bytes, secs)
    ensures Run(cfg, calls + [Report(bytes, secs)]).given == Run(cfg, calls).given
  {
    hide Offered, Reported;
    RunGrows(cfg, calls, Report(bytes, secs));
  }

  // ---- The object -----------------------------------------------------------------------------------------

  class AdaptiveController {
    const cfg: Config
    var level: nat
    var history: seq<real>
    var sinceAdjust: nat
    var bytesAssigned: nat
    var phase: Phase
    var realtimeRatio: Option<real>
    var plateaus: nat
    var lastEwma: Option<real>
    /** Every call so far. */
    ghost var calls: seq<Call>

    ghost function View(): Control
      reads this
    {
      Control(level, history, sinceAdjust, phase, plateaus, lastEwma)
    }

    /** The state is where the calls made so far lead. */
    ghost predicate Valid()
      reads this
    {
      View() == Run(cfg, calls).control && bytesAssigned == Run(cfg, calls).given
    }

    constructor (cfg: Config)
      ensures Valid() && calls == [] && this.cfg == cfg
      ensures level == Clamp(cfg.initialLevel, 2, 7) && phase == SlowStart && bytesAssigned == 0
    {
      this.cfg := cfg;
      level := Clamp(cfg.initialLevel, MIN_CHUNK_LEVEL, MAX_CHUNK_LEVEL);
      history, sinceAdjust, bytesAssigned := [], 0, 0;
      phase, realtimeRatio, plateaus, lastEwma := SlowStart, None, 0, None;
      calls := [];
    }

    /** The end of a chunk is computed in 64 bits, which the caller's total has to leave room for. */
    method NextChunk() returns (chunk: Option<ChunkRequest>)
      requires Valid() && cfg.total + CHUNK_LEVELS[MAX_CHUNK_LEVEL] < 0x1_0000_0000_0000_0000
      modifies this`bytesAssigned, this`calls
      ensures Valid() && calls == old(calls) + [Call.NextChunk]
      ensures chunk == Offered(cfg, old(Run(cfg, calls)))
      ensures chunk.None? <==> old(bytesAssigned) >= cfg.total
      ensures chunk.Some? ==>
        && chunk.value.start == old(bytesAssigned) && chunk.value.end == bytesAssigned
        && bytesAssigned == Lesser(cfg.total, old(bytesAssigned) + 0x1_0000 * Pow2(level))
    {
      hide Run, Initial, After, Pow2;
      ChunkGrows(cfg, calls);
      LevelSizes(level);
      calls := calls + [Call.NextChunk];
      if bytesAssigned >= cfg.total {
        return None;
      }
      var start := bytesAssigned;
      var end := start + CHUNK_LEVELS[level];
      if end > cfg.total {
        end := cfg.total;
      }
      bytesAssigned := end;
      return Some(ChunkRequest(start, end));
    }

    method ReportChunkComplete(bytes: nat, secs: real)
      requires Valid()
      modifies this
      ensures Valid() && calls == old(calls) + [Report(bytes, secs)]
      ensures realtimeRatio == old(realtimeRatio) && bytesAssigned == old(bytesAssigned)
    {
      RecordSample(bytes, secs);
      ReportGrows(cfg, calls, bytes, secs);
      calls := calls + [Report(bytes, secs)];
    }

    /** Also keeps how much faster than real time the segment arrived. */
    method ReportSegmentComplete(bytes: nat, secs: real, segmentSecs: Option<real>)
      requires Valid()
      modifies this
      ensures Valid() && calls == old(calls) + [Report(bytes, secs)]
      ensures bytesAssigned == old(bytesAssigned)
      ensures realtimeRatio == Ratio(old(realtimeRatio), secs, segmentSecs)
      ensures segmentSecs.Some? && segmentSecs.value > 0.0 && secs > 0.0 ==>
        realtimeRatio.Some? && realtimeRatio.value * secs == segmentSecs.value
    {
      UpdateRatio(secs, segmentSecs);
      ReportChunkComplete(bytes, secs);
    }

    method UpdateRatio(secs: real, segmentSecs: Option<real>)
      modifies this`realtimeRatio
      ensures realtimeRatio == Ratio(old(realtimeRatio), secs, segmentSecs)
    {
      if segmentSecs.Some? && segmentSecs.value > 0.0 {
        if secs > 0.0 {
          realtimeRatio := Some(segmentSecs.value / secs);
        }
      }
    }

    method RecordSample(bytes: nat, secs: real)
      requires MIN_CHUNK_LEVEL <= level <= MAX_CHUNK_LEVEL
      modifies this`level, this`history, this`sinceAdjust, this`phase, this`plateaus, this`lastEwma
      ensures View() == Reported(cfg, old(View()), bytes, secs)
      ensures secs > 0.0 && |old(history)| <= 8 ==>
        var all := old(history) + [bytes as real / secs];
        history == if |all| > 8 then all[1..] else all
    {
      if secs > 0.0 {
        if |history| >= MAX_HISTORY {
          history := history[1..];
        }
        history := history + [bytes as real / secs];
      }
      sinceAdjust := sinceAdjust + 1;
      if sinceAdjust >= cfg.interval {
        Adjust();
      }
    }

    method Adjust()
      requires MIN_CHUNK_LEVEL <= level <= MAX_CHUNK_LEVEL
      modifies this`level, this`sinceAdjust, this`phase, this`plateaus, this`lastEwma
      ensures View() == Adjusted(cfg.mode, old(View()))
    {
      sinceAdjust := 0;
      if history == [] {
        return;
      }
      var current, prev := Ewma(history), lastEwma;
      lastEwma := Some(current);
      match phase {
        case SlowStart => AdjustSlowStart(current, prev);
        case Steady => AdjustSteady(current, prev);
      }
    }

    method AdjustSlowStart(current: real, prev: Option<real>)
      modifies this`level, this`phase, this`plateaus
      ensures View() == AfterSlowStart(cfg.mode, old(View()), current, prev)
    {
      if prev.None? {
        BumpChunkLevel(2);
        return;
      }
      if current > prev.value {
        BumpChunkLevel(2);
        plateaus := 0;
      } else if current < prev.value {
        BumpChunkLevel(MD_CHUNK_DELTA);
        phase := Steady;
        plateaus := 0;
      } else {
        plateaus := plateaus + 1;
        if plateaus >= SLOW_START_PLATEAU_LIMIT {
          phase := Steady;
          plateaus := 0;
        }
      }
    }

    method AdjustSteady(current: real, prevEwma: Option<real>)
      requires MIN_CHUNK_LEVEL <= level <= MAX_CHUNK_LEVEL
      modifies this`level
      ensures level == Bumped(cfg.mode, old(level), SteadyDelta(current, prevEwma.UnwrapOr(0.0)))
    {
      var prev := prevEwma.UnwrapOr(0.0);
      if prev == 0.0 {
        BumpChunkLevel(1);
        return;
      }
      var ratio := (prev - current) / prev;
      if ratio > MD_THRESHOLD {
        BumpChunkLevel(MD_CHUNK_DELTA);
      } else if ratio > NOISE_THRESHOLD {
      } else {
        BumpChunkLevel(1);
      }
    }

    method BumpChunkLevel(delta: int)
      modifies this`level
      ensures level == Bumped(cfg.mode, old(level), delta)
    {
      if cfg.mode == HlsSegments {
        return;
      }
      level := Clamp(level + delta, MIN_CHUNK_LEVEL, MAX_CHUNK_LEVEL);
    }
  }
}

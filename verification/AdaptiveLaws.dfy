/** What holds of every run of the adaptive controller. */
module AdaptiveLaws {
  import opened Wrappers
  import opened Bits
  import opened Adaptive

  // ---- The phases and the pace of decisions ---------------------------------------------------------------

  /** Reports between decisions. */
  function Interval(cfg: Config): (i: nat)
    ensures i >= 1
  {
    if cfg.interval < 1 then 1 else cfg.interval
  }

  ghost predicate AtRest(cfg: Config, s: Session) {
    && (cfg.mode == HlsSegments ==> s.control.level == Initial(cfg).level)
    && (s.control.phase == Steady ==> s.control.lastEwma.Some? && s.control.plateaus == 0)
    && s.control.plateaus < SLOW_START_PLATEAU_LIMIT
    && |s.control.history| <= MAX_HISTORY
    && s.control.sinceAdjust < Interval(cfg)
    && s.reports == s.adjusts * Interval(cfg) + s.control.sinceAdjust
  }

  lemma ReportKeepsRest(cfg: Config, s: Session, bytes: nat, secs: real)
    requires AtRest(cfg, s) && MIN_CHUNK_LEVEL <= s.control.level <= MAX_CHUNK_LEVEL
    ensures AtRest(cfg, After(cfg, s, Report(bytes, secs)))
  {
    hide Adjusted, Offered, Initial;
    var d := s.control.(history := Sampled(s.control.history, bytes, secs),
                        sinceAdjust := s.control.sinceAdjust + 1);
    if Decides(cfg, s.control) {
      AdjustKeepsRest(cfg, d);
      assert (s.adjusts + 1) * Interval(cfg) == s.adjusts * Interval(cfg) + Interval(cfg);
    }
  }

  lemma AdjustKeepsRest(cfg: Config, d: Control)
    requires d.phase == Steady ==> d.lastEwma.Some? && d.plateaus == 0
    requires d.plateaus < SLOW_START_PLATEAU_LIMIT
    ensures var e := Adjusted(cfg.mode, d);
      && e.sinceAdjust == 0 && e.history == d.history && e.plateaus < SLOW_START_PLATEAU_LIMIT
      && (e.phase == Steady ==> e.lastEwma.Some? && e.plateaus == 0)
      && (d.phase == Steady ==> e.phase == Steady)
      && (cfg.mode == HlsSegments ==> e.level == d.level)
  {
  }

  lemma {:induction false} RestsAfter(cfg: Config, calls: seq<Call>)
    ensures AtRest(cfg, Run(cfg, calls))
  {
    if calls != [] {
      RestsAfter(cfg, calls[..|calls| - 1]);
      var call := calls[|calls| - 1];
      if call.Report? {
        ReportKeepsRest(cfg, Run(cfg, calls[..|calls| - 1]), call.bytes, call.secs);
      }
    } else {
      assert 0 * Interval(cfg) == 0;
    }
  }

  /**
    After every run: the level is within 2 to 7 and in playlist mode where it started; in the steady phase
    there is a previous average; fewer than three plateaus are pending; and there was one adjustment per
    completed interval of reports.
  */
  lemma EveryRunRests(cfg: Config, calls: seq<Call>)
    ensures var s := Run(cfg, calls);
      && 2 <= s.control.level <= 7
      && (cfg.mode == HlsSegments ==> s.control.level == Clamp(cfg.initialLevel, 2, 7))
      && (s.control.phase == Steady ==> s.control.lastEwma.Some?)
      && s.control.plateaus < 3 && |s.control.history| <= 8
      && s.adjusts == s.reports / Interval(cfg)
  {
    RestsAfter(cfg, calls);
    var s := Run(cfg, calls);
    DivUnique(s.reports, Interval(cfg), s.adjusts, s.control.sinceAdjust);
  }

  /** Once steady, always steady. */
  lemma {:induction false} SteadyStays(cfg: Config, calls: seq<Call>, more: seq<Call>)
    requires Run(cfg, calls).control.phase == Steady
    ensures Run(cfg, calls + more).control.phase == Steady
    decreases |more|
  {
    hide Ewma, Sampled, AfterSlowStart, SteadyDelta;
    if more == [] {
      assert calls + more == calls;
    } else {
      var rest, call := more[..|more| - 1], more[|more| - 1];
      SteadyStays(cfg, calls, rest);
      RestsAfter(cfg, calls + rest);
      assert calls + more == calls + rest + [call];
      RunGrows(cfg, calls + rest, call);
      var c := Run(cfg, calls + rest).control;
      if call.Report? {
        AdjustKeepsRest(cfg, c.(history := Sampled(c.history, call.bytes, call.secs),
                                sinceAdjust := c.sinceAdjust + 1));
      }
    }
  }

  // ---- The history ----------------------------------------------------------------------------------------

  /** The rates of all reports that took any time, in order. */
  function Rates(calls: seq<Call>): seq<real> {
    if calls == [] then []
    else
      var call := calls[|calls| - 1];
      Rates(calls[..|calls| - 1]) + if call.Report? && call.secs > 0.0 then [call.bytes as real / call.secs] else []
  }

  function Last(s: seq<real>, n: nat): seq<real> {
    s[|s| - Lesser(n, |s|)..]
  }

  lemma LastGrows(s: seq<real>, x: real, n: nat)
    requires n >= 1
    ensures Last(s + [x], n) == (if |Last(s, n)| >= n then Last(s, n)[1..] else Last(s, n)) + [x]
  {
  }

  /** The history is that of the last eight rates: a full one gives up its oldest sample. */
  lemma {:induction false} HistoryIsTheLastEight(cfg: Config, calls: seq<Call>)
    ensures Run(cfg, calls).control.history == Last(Rates(calls), 8)
  {
    hide Last, Reported, Offered;
    if calls == [] {
      NothingYet();
    } else {
      var earlier, call := calls[..|calls| - 1], calls[|calls| - 1];
      HistoryIsTheLastEight(cfg, earlier);
      if call.Report? {
        ReportedHistory(cfg, Run(cfg, earlier).control, call.bytes, call.secs);
      }
      if call.Report? && call.secs > 0.0 {
        LastGrows(Rates(earlier), call.bytes as real / call.secs, 8);
      } else {
        assert Rates(calls) == Rates(earlier);
      }
    }
  }

  /** Decisions leave the history alone. */
  lemma ReportedHistory(cfg: Config, c: Control, bytes: nat, secs: real)
    ensures Reported(cfg, c, bytes, secs).history == Sampled(c.history, bytes, secs)
  {
  }

  lemma NothingYet()
    ensures Last([], 8) == []
  {
  }

  // ---- The averages ---------------------------------------------------------------------------------------

  ghost predicate Within(history: seq<real>, lo: real, hi: real) {
    forall k :: 0 <= k < |history| ==> lo <= history[k] <= hi
  }

  lemma Blend(x: real, y: real, lo: real, hi: real)
    requires lo <= x <= hi && lo <= y <= hi
    ensures lo <= EWMA_ALPHA * x + (1.0 - EWMA_ALPHA) * y <= hi
  {
  }

  /** The average never leaves the range of the samples. */
  lemma {:induction false} EwmaStaysWithin(history: seq<real>, lo: real, hi: real)
    requires history != [] && Within(history, lo, hi)
    ensures lo <= Ewma(history) <= hi
    decreases |history|
  {
    var n := |history| - 1;
    if n > 0 {
      EwmaStaysWithin(history[..n], lo, hi);
      Blend(history[n], Ewma(history[..n]), lo, hi);
    }
  }

  /** A distance after `n` times losing three tenths of it. */
  function Shrunk(gap: real, n: nat): real {
    if n == 0 then gap else 0.7 * Shrunk(gap, n - 1)
  }

  /**
    While the samples stay at `x`, the average closes three tenths of its distance to it with each of them:
    the past is forgotten geometrically.
  */
  lemma {:induction false} EwmaForgets(history: seq<real>, m: nat, x: real)
    requires 0 < m <= |history| && forall k :: m <= k < |history| ==> history[k] == x
    ensures Ewma(history) - x == Shrunk(Ewma(history[..m]) - x, |history| - m)
    decreases |history|
  {
    var n := |history| - 1;
    if m == |history| {
      assert history[..m] == history;
    } else {
      assert history[..n][..m] == history[..m];
      EwmaForgets(history[..n], m, x);
    }
  }

  /** What sample `i` contributes to the average of a history: the first in full, and all shrunk by those after. */
  function Share(history: seq<real>, i: nat): real
    requires i < |history|
  {
    Shrunk(if i == 0 then history[0] else 0.3 * history[i], |history| - 1 - i)
  }

  function Shares(history: seq<real>, k: nat): real
    requires k <= |history|
  {
    if k == 0 then 0.0 else Shares(history, k - 1) + Share(history, k - 1)
  }

  lemma {:induction false} SharesShrink(history: seq<real>, k: nat)
    requires k < |history|
    ensures Shares(history, k) == 0.7 * Shares(history[..|history| - 1], k)
  {
    if k > 0 {
      SharesShrink(history, k - 1);
    }
  }

  /**
    The average in closed form: 3/10 of the newest sample, every older one weighing 7/10 of the one behind it,
    and what is left of the weight on the oldest.
  */
  lemma {:induction false} EwmaIsWeighted(history: seq<real>)
    requires history != []
    ensures Ewma(history) == Shares(history, |history|)
    decreases |history|
  {
    var n := |history| - 1;
    if n == 0 {
      assert Shares(history, 0) == 0.0;
    } else {
      EwmaIsWeighted(history[..n]);
      SharesShrink(history, n);
    }
  }

  /** In the steady phase a drop above 30 % sheds two levels, one above 10 % holds, anything else adds one. */
  lemma SteadyThresholds(ewma: real, prev: real)
    requires ewma >= 0.0 && prev >= 0.0
    ensures SteadyDelta(ewma, prev) == -2 <==> ewma < 0.7 * prev
    ensures SteadyDelta(ewma, prev) == 0 <==> 0.7 * prev <= ewma < 0.9 * prev
    ensures SteadyDelta(ewma, prev) == 1 <==> ewma >= 0.9 * prev
  {
    if prev > 0.0 {
      RatioAbove(prev - ewma, prev, MD_THRESHOLD);
      RatioAbove(prev - ewma, prev, NOISE_THRESHOLD);
    }
  }

  /** Comparing a ratio is comparing the difference with its share. */
  lemma RatioAbove(x: real, p: real, c: real)
    requires p > 0.0
    ensures x / p > c <==> x > c * p
  {
    var q := x / p;
    assert q * p == x;
    if q > c {
      Scale(c, q, p);
    } else if q < c {
      Scale(q, c, p);
    }
  }

  lemma Scale(a: real, b: real, p: real)
    requires p > 0.0 && a < b
    ensures a * p < b * p
  {
    assert (b - a) * p > 0.0;
  }

  // ---- Slow start -----------------------------------------------------------------------------------------

  /** The averages the adjustments of a run have compared, in order. */
  function Averages(cfg: Config, calls: seq<Call>): seq<real> {
    if calls == [] then []
    else
      var earlier, call := calls[..|calls| - 1], calls[|calls| - 1];
      var c := Run(cfg, earlier).control;
      if call.Report? && Decides(cfg, c) && Sampled(c.history, call.bytes, call.secs) != []
      then Averages(cfg, earlier) + [Ewma(Sampled(c.history, call.bytes, call.secs))]
      else Averages(cfg, earlier)
  }

  /** How often in a row the last average has repeated. */
  function Plateau(a: seq<real>): nat {
    if |a| < 2 || a[|a| - 1] != a[|a| - 2] then 0 else 1 + Plateau(a[..|a| - 1])
  }

  /** No average has fallen below the one before it, and none has repeated three times in a row. */
  predicate Climbing(a: seq<real>) {
    a == [] ||
    (Climbing(a[..|a| - 1]) && (|a| >= 2 ==> a[|a| - 1] >= a[|a| - 2]) && Plateau(a) < SLOW_START_PLATEAU_LIMIT)
  }

  /** The first average and every rise. */
  function Climbs(a: seq<real>): nat {
    if a == [] then 0
    else Climbs(a[..|a| - 1]) + if |a| == 1 || a[|a| - 1] > a[|a| - 2] then 1 else 0
  }

  ghost predicate OnSlowStart(cfg: Config, c: Control, a: seq<real>) {
    && c.lastEwma == (if a == [] then None else Some(a[|a| - 1]))
    && (c.phase == SlowStart <==> Climbing(a))
    && (c.phase == SlowStart ==> c.plateaus == Plateau(a))
    && (c.phase == SlowStart && cfg.mode == HttpChunked ==>
          c.level == Lesser(MAX_CHUNK_LEVEL, Initial(cfg).level + 2 * Climbs(a)))
  }

  lemma AdjustmentStays(cfg: Config, d: Control, a: seq<real>)
    requires OnSlowStart(cfg, d, a) && d.history != []
    ensures OnSlowStart(cfg, Adjusted(cfg.mode, d), a + [Ewma(d.history)])
  {
    var e := Ewma(d.history);
    assert (a + [e])[..|a|] == a;
  }

  lemma {:induction false} SlowStartHolds(cfg: Config, calls: seq<Call>)
    ensures OnSlowStart(cfg, Run(cfg, calls).control, Averages(cfg, calls))
  {
    hide Ewma, Sampled, AfterSlowStart, SteadyDelta, Offered;
    if calls != [] {
      var earlier, call := calls[..|calls| - 1], calls[|calls| - 1];
      SlowStartHolds(cfg, earlier);
      if call.Report? {
        var c := Run(cfg, earlier).control;
        var d := c.(history := Sampled(c.history, call.bytes, call.secs), sinceAdjust := c.sinceAdjust + 1);
        if Decides(cfg, c) && d.history != [] {
          AdjustmentStays(cfg, d, Averages(cfg, earlier));
        }
      }
    }
  }

  /**
    A run is in slow start exactly as long as the averages have neither fallen nor repeated three times in a
    row, and until then its level is two for the first average and two for every rise above the start.
  */
  lemma SlowStartExactly(cfg: Config, calls: seq<Call>)
    ensures var c := Run(cfg, calls).control; var a := Averages(cfg, calls);
      && (c.phase == SlowStart <==> Climbing(a))
      && (Climbing(a) && cfg.mode == HttpChunked ==>
            c.level == Lesser(MAX_CHUNK_LEVEL, Initial(cfg).level + 2 * Climbs(a)))
  {
    SlowStartHolds(cfg, calls);
  }

  /** A report that brings the run a new, lower average. */
  ghost predicate FirstFall(cfg: Config, calls: seq<Call>, report: Call) {
    && report.Report? && Decides(cfg, Run(cfg, calls).control)
    && Climbing(Averages(cfg, calls)) && Averages(cfg, calls) != []
    && var history := Sampled(Run(cfg, calls).control.history, report.bytes, report.secs);
    && history != [] && Ewma(history) < Averages(cfg, calls)[|Averages(cfg, calls)| - 1]
  }

  lemma FallSheds(cfg: Config, d: Control, a: seq<real>)
    requires cfg.mode == HttpChunked && OnSlowStart(cfg, d, a) && Climbing(a) && a != []
    requires d.history != [] && Ewma(d.history) < a[|a| - 1]
    ensures Adjusted(cfg.mode, d).phase == Steady
    ensures Adjusted(cfg.mode, d).level == Clamp(d.level - 2, MIN_CHUNK_LEVEL, MAX_CHUNK_LEVEL)
  {
  }

  /** The first fall of the averages sheds two levels and ends slow start, for good by `SteadyStays`. */
  lemma FirstFallSheds(cfg: Config, calls: seq<Call>, report: Call)
    requires cfg.mode == HttpChunked && FirstFall(cfg, calls, report)
    ensures var c := Run(cfg, calls + [report]).control;
      && c.phase == Steady
      && c.level == Clamp(Run(cfg, calls).control.level - 2, MIN_CHUNK_LEVEL, MAX_CHUNK_LEVEL)
  {
    var c := Run(cfg, calls).control;
    SlowStartHolds(cfg, calls);
    RunGrows(cfg, calls, report);
    FallSheds(cfg, c.(history := Sampled(c.history, report.bytes, report.secs), sinceAdjust := c.sinceAdjust + 1),
              Averages(cfg, calls));
  }

  // ---- Steady phase ---------------------------------------------------------------------------------------

  lemma {:induction false} RatesAreNotNegative(calls: seq<Call>)
    ensures forall k :: 0 <= k < |Rates(calls)| ==> Rates(calls)[k] >= 0.0
  {
    if calls != [] {
      RatesAreNotNegative(calls[..|calls| - 1]);
      var call := calls[|calls| - 1];
      if call.Report? && call.secs > 0.0 {
        NotNegative(call.bytes as real, call.secs);
      }
    }
  }

  lemma NotNegative(x: real, d: real)
    requires x >= 0.0 && d > 0.0
    ensures x / d >= 0.0
  {
    var q := x / d;
    assert q * d == x;
  }

  lemma {:induction false} EwmaNotNegative(history: seq<real>)
    requires history != [] && forall k :: 0 <= k < |history| ==> history[k] >= 0.0
    ensures Ewma(history) >= 0.0
    decreases |history|
  {
    if |history| > 1 {
      EwmaNotNegative(history[..|history| - 1]);
    }
  }

  lemma SampledNotNegative(cfg: Config, calls: seq<Call>, bytes: nat, secs: real)
    ensures var h := Sampled(Run(cfg, calls).control.history, bytes, secs);
      h != [] ==> Ewma(h) >= 0.0
  {
    hide Run, Rates, Ewma, Sampled;
    var h := Sampled(Run(cfg, calls).control.history, bytes, secs);
    HistoryIsTheLastEight(cfg, calls);
    RatesAreNotNegative(calls);
    SampleKeepsSign(Last(Rates(calls), 8), bytes, secs);
    if h != [] {
      EwmaNotNegative(h);
    }
  }

  lemma SampleKeepsSign(history: seq<real>, bytes: nat, secs: real)
    requires forall k :: 0 <= k < |history| ==> history[k] >= 0.0
    ensures var h := Sampled(history, bytes, secs); forall k :: 0 <= k < |h| ==> h[k] >= 0.0
  {
    if secs > 0.0 {
      NotNegative(bytes as real, secs);
    }
  }

  lemma {:induction false} AveragesAreNotNegative(cfg: Config, calls: seq<Call>)
    ensures forall k :: 0 <= k < |Averages(cfg, calls)| ==> Averages(cfg, calls)[k] >= 0.0
  {
    hide Ewma, Sampled, Run;
    if calls != [] {
      var earlier, call := calls[..|calls| - 1], calls[|calls| - 1];
      AveragesAreNotNegative(cfg, earlier);
      if call.Report? {
        SampledNotNegative(cfg, earlier, call.bytes, call.secs);
      }
    }
  }

  /** A deciding report in the steady phase, its average being `e` and the one before it `prev`. */
  ghost predicate SteadyDecision(cfg: Config, calls: seq<Call>, report: Call, e: real, prev: real) {
    && cfg.mode == HttpChunked && report.Report?
    && Run(cfg, calls).control.phase == Steady && Decides(cfg, Run(cfg, calls).control)
    && var history := Sampled(Run(cfg, calls).control.history, report.bytes, report.secs);
    && history != [] && e == Ewma(history)
    && Averages(cfg, calls) != [] && prev == Averages(cfg, calls)[|Averages(cfg, calls)| - 1]
  }

  /** In every run a steady decision sheds two levels, holds or adds one by how far the average has fallen. */
  lemma SteadyDecides(cfg: Config, calls: seq<Call>, report: Call, e: real, prev: real)
    requires SteadyDecision(cfg, calls, report, e, prev)
    ensures var level := Run(cfg, calls).control.level;
      Run(cfg, calls + [report]).control.level ==
      Clamp(level + (if e < 0.7 * prev then -2 else if e < 0.9 * prev then 0 else 1), 2, 7)
  {
    hide Ewma, Sampled, Averages, SteadyDelta, AfterSlowStart, Offered;
    var c := Run(cfg, calls).control;
    SlowStartHolds(cfg, calls);
    AveragesAreNotNegative(cfg, calls);
    SampledNotNegative(cfg, calls, report.bytes, report.secs);
    SteadyThresholds(e, prev);
    ReportGrows(cfg, calls, report.bytes, report.secs);
    assert report == Report(report.bytes, report.secs);
    assert c.lastEwma == Some(prev);
  }

  // ---- Constant throughput --------------------------------------------------------------------------------

  ghost predicate AtRate(calls: seq<Call>, rate: real) {
    forall k :: 0 <= k < |calls| && calls[k].Report? ==>
      calls[k].secs > 0.0 && calls[k].bytes as real / calls[k].secs == rate
  }

  /** The first adjustment adds two levels, the next three are plateaus, and from the fifth on each adds one. */
  function LevelAfter(start: nat, adjusts: nat): int {
    if adjusts == 0 then start
    else Lesser(MAX_CHUNK_LEVEL, Lesser(MAX_CHUNK_LEVEL, start + 2) + if adjusts < 5 then 0 else adjusts - 4)
  }

  ghost predicate Level(cfg: Config, s: Session, rate: real) {
    && Within(s.control.history, rate, rate)
    && (s.reports > 0 ==> s.control.history != [])
    && (cfg.mode == HttpChunked ==> s.control.level == LevelAfter(Initial(cfg).level, s.adjusts))
    && s.control.phase == (if s.adjusts < 4 then SlowStart else Steady)
    && s.control.plateaus == (if 1 <= s.adjusts < 4 then s.adjusts - 1 else 0)
    && s.control.lastEwma == (if s.adjusts == 0 then None else Some(rate))
  }

  lemma SampleKeepsRate(history: seq<real>, bytes: nat, secs: real, rate: real)
    requires Within(history, rate, rate) && secs > 0.0 && bytes as real / secs == rate
    ensures Within(Sampled(history, bytes, secs), rate, rate) && Sampled(history, bytes, secs) != []
  {
  }

  lemma AdjustAtRate(mode: Mode, d: Control, rate: real, start: nat, n: nat)
    requires Within(d.history, rate, rate) && d.history != []
    requires MIN_CHUNK_LEVEL <= start <= MAX_CHUNK_LEVEL
    requires mode == HttpChunked ==> d.level == LevelAfter(start, n)
    requires d.phase == (if n < 4 then SlowStart else Steady)
    requires d.plateaus == (if 1 <= n < 4 then n - 1 else 0)
    requires d.lastEwma == (if n == 0 then None else Some(rate))
    ensures var e := Adjusted(mode, d);
      && (mode == HttpChunked ==> e.level == LevelAfter(start, n + 1))
      && e.phase == (if n + 1 < 4 then SlowStart else Steady)
      && e.plateaus == (if n + 1 < 4 then n else 0)
      && e.lastEwma == Some(rate) && e.history == d.history
  {
    EwmaStaysWithin(d.history, rate, rate);
    if n >= 4 {
      SteadyAtRate(rate);
    }
  }

  lemma SteadyAtRate(rate: real)
    ensures SteadyDelta(rate, rate) == 1
  {
    if rate != 0.0 {
      assert (rate - rate) / rate == 0.0;
    }
  }

  lemma ReportAtRate(cfg: Config, s: Session, bytes: nat, secs: real, rate: real)
    requires Level(cfg, s, rate) && MIN_CHUNK_LEVEL <= s.control.level <= MAX_CHUNK_LEVEL
    requires secs > 0.0 && bytes as real / secs == rate
    ensures Level(cfg, After(cfg, s, Report(bytes, secs)), rate)
  {
    SampleKeepsRate(s.control.history, bytes, secs, rate);
    var d := s.control.(history := Sampled(s.control.history, bytes, secs),
                        sinceAdjust := s.control.sinceAdjust + 1);
    if Decides(cfg, s.control) {
      AdjustAtRate(cfg.mode, d, rate, Initial(cfg).level, s.adjusts);
    }
  }

  lemma {:induction false} RunAtRate(cfg: Config, calls: seq<Call>, rate: real)
    requires AtRate(calls, rate)
    ensures Level(cfg, Run(cfg, calls), rate)
  {
    if calls != [] {
      var call := calls[|calls| - 1];
      RunAtRate(cfg, calls[..|calls| - 1], rate);
      if call.Report? {
        ReportAtRate(cfg, Run(cfg, calls[..|calls| - 1]), call.bytes, call.secs, rate);
      }
    }
  }

  /** Under constant throughput the level depends on the number of reports alone, whatever the rate. */
  lemma ConstantThroughputLevel(cfg: Config, calls: seq<Call>, rate: real)
    requires AtRate(calls, rate)
    ensures var s := Run(cfg, calls); var n := s.reports / Interval(cfg);
      s.control.level == if cfg.mode == HlsSegments then Initial(cfg).level else LevelAfter(Initial(cfg).level, n)
  {
    RunAtRate(cfg, calls, rate);
    EveryRunRests(cfg, calls);
  }

  // ---- The ranges handed out ------------------------------------------------------------------------------

  /** Ranges without gaps from 0 to `end`, none of them empty. */
  ghost predicate Chained(issued: seq<ChunkRequest>, end: nat) {
    && (issued == [] ==> end == 0)
    && (issued != [] ==> issued[0].start == 0 && issued[|issued| - 1].end == end)
    && (forall k :: 0 <= k < |issued| ==> issued[k].start < issued[k].end)
    && (forall k :: 0 < k < |issued| ==> issued[k].start == issued[k - 1].end)
  }

  const SMALLEST: nat := 0x4_0000
  const LARGEST: nat := 0x80_0000

  /** While bytes remain every range has a full chunk's size. */
  ghost predicate Tiling(cfg: Config, s: Session) {
    && Chained(s.issued, s.given) && s.given <= cfg.total
    && s.given <= |s.issued| * LARGEST
    && (if s.given < cfg.total then |s.issued| * SMALLEST <= s.given
        else s.issued != [] ==> (|s.issued| - 1) * SMALLEST < s.given)
  }

  lemma ChunkKeepsTiling(cfg: Config, s: Session)
    requires Tiling(cfg, s) && MIN_CHUNK_LEVEL <= s.control.level <= MAX_CHUNK_LEVEL
    ensures Tiling(cfg, After(cfg, s, NextChunk))
  {
    LevelSizes(s.control.level);
  }

  lemma {:induction false} RunTiles(cfg: Config, calls: seq<Call>)
    ensures Tiling(cfg, Run(cfg, calls))
  {
    if calls != [] {
      RunTiles(cfg, calls[..|calls| - 1]);
      if calls[|calls| - 1] == NextChunk {
        ChunkKeepsTiling(cfg, Run(cfg, calls[..|calls| - 1]));
      }
    }
  }

  function CeilDiv(a: nat, b: nat): nat
    requires b > 0
  {
    (a + b - 1) / b
  }

  /**
    However calls and reports interleave, the ranges handed out are non-empty and follow each other without a
    gap; None is answered exactly when they reach the end; and by then there are at least ceil(total / 8 MiB)
    and at most ceil(total / 256 KiB) of them.
  */
  lemma ChunksTileTheFile(cfg: Config, calls: seq<Call>)
    ensures var s := Run(cfg, calls);
      && Chained(s.issued, s.given) && s.given <= cfg.total
      && (Offered(cfg, s) == None <==> s.given == cfg.total)
      && (s.given == cfg.total ==>
            CeilDiv(cfg.total, LARGEST) <= |s.issued| <= CeilDiv(cfg.total, SMALLEST))
  {
    RunTiles(cfg, calls);
  }

  lemma {:induction false} EndsGrow(issued: seq<ChunkRequest>, end: nat, j: nat, k: nat)
    requires Chained(issued, end) && j < k < |issued|
    ensures issued[j].end <= issued[k].start
    decreases k
  {
    if j < k - 1 {
      EndsGrow(issued, end, j, k - 1);
    }
  }

  lemma {:induction false} RangeHolding(issued: seq<ChunkRequest>, end: nat, b: nat) returns (k: nat)
    requires Chained(issued, end) && b < end
    ensures k < |issued| && issued[k].start <= b < issued[k].end
    decreases |issued|
  {
    var n := |issued| - 1;
    if issued[n].start <= b {
      k := n;
    } else {
      assert n > 0;
      k := RangeHolding(issued[..n], issued[n - 1].end, b);
    }
  }

  /** Every byte handed out is in exactly one range. */
  lemma EveryByteInOneRange(cfg: Config, calls: seq<Call>, b: nat) returns (k: nat)
    requires b < Run(cfg, calls).given
    ensures var issued := Run(cfg, calls).issued;
      && k < |issued| && issued[k].start <= b < issued[k].end
      && forall j: nat :: j < |issued| && issued[j].start <= b < issued[j].end ==> j == k
  {
    RunTiles(cfg, calls);
    var s := Run(cfg, calls);
    k := RangeHolding(s.issued, s.given, b);
    forall j: nat | j < |s.issued| && s.issued[j].start <= b < s.issued[j].end ensures j == k {
      if j < k {
        EndsGrow(s.issued, s.given, j, k);
      } else if k < j {
        EndsGrow(s.issued, s.given, k, j);
      }
    }
  }
}

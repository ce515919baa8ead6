/** The download-rate meter of `crates/rdlp-downloader/src/progress.rs`: instants in nanoseconds, rates as reals. */
module SpeedMeter {
  import opened Wrappers

  const SPEED_WINDOW: nat := 3_000_000_000
  const SPEED_SAMPLE_GATE: nat := 50_000_000
  const SPEED_EWMA_NEW_WEIGHT: real := 0.3

  datatype Sample = Sample(at: nat, bytes: nat)

  /** `Instant::duration_since`, which saturates at zero. */
  function Since(now: nat, earlier: nat): nat {
    if now < earlier then 0 else now - earlier
  }

  function Secs(nanos: int): real {
    nanos as real / 1_000_000_000.0
  }

  // ---- The readout as a function of the accepted samples --------------------------------------------------

  predicate Accepts(taken: seq<Sample>, now: nat) {
    taken == [] || Since(now, taken[|taken| - 1].at) >= SPEED_SAMPLE_GATE
  }

  /** Samples at least the gate apart, in order. */
  ghost predicate Spaced(taken: seq<Sample>) {
    forall j, k :: 0 <= j < k < |taken| ==> taken[j].at + SPEED_SAMPLE_GATE * (k - j) <= taken[k].at
  }

  /** The samples left after those too old for `now` are dropped from the front. */
  function Recent(taken: seq<Sample>, now: nat): seq<Sample> {
    if taken == [] || Since(now, taken[0].at) <= SPEED_WINDOW then taken else Recent(taken[1..], now)
  }

  function Window(taken: seq<Sample>): seq<Sample> {
    if taken == [] then [] else Recent(taken, taken[|taken| - 1].at)
  }

  /** Bytes per second from the first to the last of some samples. */
  function RawRate(window: seq<Sample>): real
    requires |window| >= 2 && window[0].at < window[|window| - 1].at
  {
    var first, last := window[0], window[|window| - 1];
    Since(last.bytes, first.bytes) as real / Secs(last.at - first.at)
  }

  predicate Measurable(window: seq<Sample>) {
    |window| >= 2 ==> window[0].at < window[|window| - 1].at
  }

  /** The readout after the window has been trimmed, from the one before. */
  function Readout(prev: Option<real>, window: seq<Sample>): Option<real>
    requires Measurable(window)
  {
    if |window| < 2 then None
    else
      var raw := RawRate(window);
      Some(if prev.None? then raw else SPEED_EWMA_NEW_WEIGHT * raw + (1.0 - SPEED_EWMA_NEW_WEIGHT) * prev.value)
  }

  function Smoothed(taken: seq<Sample>): Option<real>
    requires Spaced(taken)
    decreases |taken|
  {
    if taken == [] then None
    else
      WindowIsSuffix(taken);
      assert Spaced(taken[..|taken| - 1]);
      Readout(Smoothed(taken[..|taken| - 1]), Window(taken))
  }

  lemma {:induction false} RecentDropsFirst(taken: seq<Sample>, now: nat) returns (d: nat)
    ensures d <= |taken| && Recent(taken, now) == taken[d..]
    ensures d < |taken| ==> Since(now, taken[d].at) <= SPEED_WINDOW
    ensures forall k :: 0 <= k < d ==> Since(now, taken[k].at) > SPEED_WINDOW
  {
    if taken == [] || Since(now, taken[0].at) <= SPEED_WINDOW {
      d := 0;
    } else {
      var rest := taken[1..];
      var e := RecentDropsFirst(rest, now);
      d := e + 1;
      assert rest[e..] == taken[d..];
      forall k | 0 <= k < d ensures Since(now, taken[k].at) > SPEED_WINDOW {
        if k > 0 {
          assert rest[k - 1] == taken[k];
        }
      }
    }
  }

  lemma RecentIsSuffix(taken: seq<Sample>, now: nat)
    ensures |Recent(taken, now)| <= |taken|
    ensures Recent(taken, now) == taken[|taken| - |Recent(taken, now)|..]
    ensures taken != [] && Since(now, taken[|taken| - 1].at) <= SPEED_WINDOW ==> Recent(taken, now) != []
    ensures Recent(taken, now) != [] ==> Since(now, Recent(taken, now)[0].at) <= SPEED_WINDOW
    ensures forall k :: 0 <= k < |taken| - |Recent(taken, now)| ==> Since(now, taken[k].at) > SPEED_WINDOW
  {
    var d := RecentDropsFirst(taken, now);
  }

  lemma WindowIsSuffix(taken: seq<Sample>)
    requires Spaced(taken)
    ensures var n := |Window(taken)|;
      && n <= |taken| && Window(taken) == taken[|taken| - n..] && (taken != [] ==> n >= 1)
      && Measurable(Window(taken))
  {
    if taken != [] {
      RecentIsSuffix(taken, taken[|taken| - 1].at);
      var n := |Window(taken)|;
      if n >= 2 {
        assert taken[|taken| - n].at + SPEED_SAMPLE_GATE * (n - 1) <= taken[|taken| - 1].at;
      }
    }
  }

  // ---- The meter ------------------------------------------------------------------------------------------

  class SpeedMeter {
    var window: seq<Sample>
    var smoothed: Option<real>
    var lastSample: Option<nat>
    /** Every sample accepted so far. */
    ghost var taken: seq<Sample>

    ghost predicate Valid()
      reads this
    {
      && Spaced(taken)
      && window == Window(taken)
      && smoothed == Smoothed(taken)
      && lastSample == if taken == [] then None else Some(taken[|taken| - 1].at)
    }

    constructor ()
      ensures Valid() && taken == []
    {
      window, smoothed, lastSample, taken := [], None, None, [];
    }

    method Update(cumulativeBytes: nat, now: nat)
      requires Valid()
      modifies this
      ensures Valid()
      ensures taken == old(taken) + if Accepts(old(taken), now) then [Sample(now, cumulativeBytes)] else []
      ensures taken == old(taken) <==> old(taken) != [] && now < old(taken)[|old(taken)| - 1].at + 50_000_000
    {
      if lastSample.Some? {
        if Since(now, lastSample.value) < SPEED_SAMPLE_GATE {
          return;
        }
      }
      Take(Sample(now, cumulativeBytes));
    }

    method Take(sample: Sample)
      requires Valid() && Accepts(taken, sample.at)
      modifies this
      ensures Valid() && taken == old(taken) + [sample]
    {
      Taking(taken, sample);
      lastSample := Some(sample.at);
      taken := taken + [sample];
      window := window + [sample];
      Trim(sample.at);
      Smooth();
    }

    method Smooth()
      requires Measurable(window)
      modifies this`smoothed
      ensures smoothed == Readout(old(smoothed), window)
    {
      if |window| < 2 {
        smoothed := None;
        return;
      }
      var raw := RawRate(window);
      smoothed := Some(
        if smoothed.None? then raw
        else SPEED_EWMA_NEW_WEIGHT * raw + (1.0 - SPEED_EWMA_NEW_WEIGHT) * smoothed.value);
    }

    /** Drops the samples that have left the window, from the front. */
    method Trim(now: nat)
      modifies this`window
      ensures window == Recent(old(window), now)
    {
      while window != [] && Since(now, window[0].at) > SPEED_WINDOW
        invariant Recent(window, now) == Recent(old(window), now)
        decreases |window|
      {
        window := window[1..];
      }
    }

    function BytesPerSec(): Option<real>
      reads this
    {
      smoothed
    }
  }

  /** What taking one more sample does to the window and the readout. */
  lemma Taking(taken: seq<Sample>, s: Sample)
    requires Spaced(taken) && Accepts(taken, s.at)
    ensures var all := taken + [s]; var w := Window(all);
      && Spaced(all) && Recent(Window(taken) + [s], s.at) == w
      && Measurable(w) && Smoothed(all) == Readout(Smoothed(taken), w)
  {
    TakingKeepsSpaced(taken, s);
    TrimmingLate(taken, s);
    WindowIsSuffix(taken + [s]);
    SmoothedGrows(taken, s);
  }

  lemma SmoothedGrows(taken: seq<Sample>, s: Sample)
    requires Spaced(taken) && Spaced(taken + [s])
    ensures var w := Window(taken + [s]);
      && Measurable(w) && Smoothed(taken + [s]) == Readout(Smoothed(taken), w)
  {
    var all := taken + [s];
    WindowIsSuffix(all);
    assert all[..|all| - 1] == taken;
  }

  lemma TakingKeepsSpaced(taken: seq<Sample>, s: Sample)
    requires Spaced(taken) && Accepts(taken, s.at)
    ensures Spaced(taken + [s])
  {
    var all, n := taken + [s], |taken|;
    forall j, k | 0 <= j < k < |all| ensures all[j].at + SPEED_SAMPLE_GATE * (k - j) <= all[k].at {
      if k == n && j < n - 1 {
        assert taken[j].at + SPEED_SAMPLE_GATE * (n - 1 - j) <= taken[n - 1].at;
      }
    }
  }

  /** Trimming by the previous instant first changes nothing: what was too old then still is. */
  lemma TrimmingLate(taken: seq<Sample>, s: Sample)
    requires Spaced(taken) && Accepts(taken, s.at)
    ensures Recent(Window(taken) + [s], s.at) == Window(taken + [s])
  {
    if taken != [] {
      TrimmingTwice(taken, s, taken[|taken| - 1].at);
    }
  }

  lemma {:induction false} TrimmingTwice(taken: seq<Sample>, s: Sample, earlier: nat)
    requires earlier <= s.at
    ensures Recent(Recent(taken, earlier) + [s], s.at) == Recent(taken + [s], s.at)
  {
    if taken != [] && Since(earlier, taken[0].at) > SPEED_WINDOW {
      TrimmingTwice(taken[1..], s, earlier);
      assert (taken + [s])[1..] == taken[1..] + [s];
    }
  }

  // ---- What the readout promises --------------------------------------------------------------------------

  /**
    The window holds at most 61 samples, the gate apart and within three seconds, and exactly the recent ones:
    every earlier sample is too old.
  */
  lemma WindowIsBounded(taken: seq<Sample>)
    requires Spaced(taken) && taken != []
    ensures var w := Window(taken); var now := taken[|taken| - 1].at;
      && 1 <= |w| <= 61 && |w| <= |taken| && Spaced(w) && w == taken[|taken| - |w|..]
      && w[|w| - 1].at - w[0].at <= 3_000_000_000
      && forall k :: 0 <= k < |taken| - |w| ==> now - taken[k].at > 3_000_000_000
  {
    var w, n := Window(taken), |taken|;
    WindowIsSuffix(taken);
    RecentIsSuffix(taken, taken[n - 1].at);
    forall j, k | 0 <= j < k < |w| ensures w[j].at + SPEED_SAMPLE_GATE * (k - j) <= w[k].at {
      assert taken[n - |w| + j].at + SPEED_SAMPLE_GATE * (k - j) <= taken[n - |w| + k].at;
    }
  }

  lemma NeighbourDecides(taken: seq<Sample>)
    requires Spaced(taken) && |taken| >= 2
    ensures taken[|taken| - 2].at < taken[|taken| - 1].at
    ensures |Window(taken)| >= 2 <==> taken[|taken| - 1].at - taken[|taken| - 2].at <= SPEED_WINDOW
  {
    var n, w := |taken|, Window(taken);
    var now := taken[n - 1].at;
    RecentIsSuffix(taken, now);
    SpacedPair(taken, n - 2, n - 1);
    if |w| < 2 {
      assert Since(now, taken[n - 2].at) > SPEED_WINDOW;
    } else {
      assert w[0] == taken[n - |w|];
      SpacedPair(taken, n - |w|, n - 2);
    }
  }

  lemma SpacedPair(taken: seq<Sample>, j: nat, k: nat)
    requires Spaced(taken) && j <= k < |taken|
    ensures taken[j].at + SPEED_SAMPLE_GATE * (k - j) <= taken[k].at
  {
  }

  lemma SmoothedNeedsTwo(taken: seq<Sample>)
    requires Spaced(taken)
    ensures Smoothed(taken).Some? <==> |Window(taken)| >= 2
  {
    hide Spaced, Window, RawRate;
    WindowIsSuffix(taken);
  }

  /** There is a readout exactly when two samples are recent. */
  lemma ReadoutExactly(taken: seq<Sample>)
    requires Spaced(taken)
    ensures Smoothed(taken).Some? <==> |Window(taken)| >= 2
    ensures Smoothed(taken).Some? <==>
      |taken| >= 2 && taken[|taken| - 1].at - taken[|taken| - 2].at <= 3_000_000_000
  {
    hide Spaced, Window, Smoothed;
    SmoothedNeedsTwo(taken);
    WindowIsSuffix(taken);
    if |taken| >= 2 {
      NeighbourDecides(taken);
    }
  }

  /**
    The raw rate is over the whole window: times the window's span in seconds it gives the bytes gained from
    its first sample to its last, none if the total fell.
  */
  lemma RawRateSpansTheWindow(window: seq<Sample>)
    requires |window| >= 2 && window[0].at < window[|window| - 1].at
    ensures var first, last := window[0], window[|window| - 1];
      && RawRate(window) * (last.at - first.at) as real
         == 1_000_000_000.0 * (if last.bytes < first.bytes then 0 else last.bytes - first.bytes) as real
  {
    var first, last := window[0], window[|window| - 1];
    var gained := (if last.bytes < first.bytes then 0 else last.bytes - first.bytes) as real;
    ScaledBack(gained, (last.at - first.at) as real, RawRate(window));
  }

  lemma ScaledBack(x: real, d: real, q: real)
    requires d > 0.0 && q == x / (d / 1_000_000_000.0)
    ensures q * d == 1_000_000_000.0 * x
  {
    var e := d / 1_000_000_000.0;
    assert e * 1_000_000_000.0 == d;
    assert q * e == x;
  }

  /** So bursts inside the window do not move it: only the first and the last sample count. */
  lemma BurstsDoNotShow(v: seq<Sample>, w: seq<Sample>)
    requires |v| >= 2 && |w| >= 2 && v[0] == w[0] && v[|v| - 1] == w[|w| - 1]
    requires v[0].at < v[|v| - 1].at
    ensures RawRate(v) == RawRate(w)
  {
  }

  /** A distance after `n` times losing three tenths of it. */
  function Shrunk(gap: real, n: nat): real {
    if n == 0 then gap else 0.7 * Shrunk(gap, n - 1)
  }

  /** The sample at `k` has another in its window, and the raw rate over that window is `x`. */
  ghost predicate RawAt(taken: seq<Sample>, k: nat, x: real)
    requires Spaced(taken) && k < |taken|
  {
    WindowIsSuffix(taken[..k + 1]);
    var w := Window(taken[..k + 1]);
    |w| >= 2 && RawRate(w) == x
  }

  /** The first readout, and the first after a pause, is the raw rate itself. */
  lemma FirstReadoutIsRaw(taken: seq<Sample>, x: real)
    requires Spaced(taken) && taken != [] && RawAt(taken, |taken| - 1, x)
    requires Smoothed(taken[..|taken| - 1]).None?
    ensures Smoothed(taken) == Some(x)
  {
    hide RawRate, Window;
    WindowIsSuffix(taken);
    assert taken[..|taken|] == taken;
  }

  /** From then on each sample at the raw rate `x` closes three tenths of the readout's distance to `x`. */
  lemma {:induction false} ReadoutForgets(taken: seq<Sample>, m: nat, x: real)
    requires Spaced(taken) && 0 < m <= |taken| && Smoothed(taken[..m]).Some?
    requires forall k :: m <= k < |taken| ==> RawAt(taken, k, x)
    ensures Smoothed(taken).Some?
    ensures Smoothed(taken).value - x == Shrunk(Smoothed(taken[..m]).value - x, |taken| - m)
    decreases |taken|
  {
    hide RawRate, Window;
    var n := |taken| - 1;
    WindowIsSuffix(taken);
    assert taken[..|taken|] == taken;
    if m < |taken| {
      var earlier := taken[..n];
      assert earlier[..m] == taken[..m];
      forall k | m <= k < n ensures RawAt(earlier, k, x) {
        assert RawAt(taken, k, x);
        assert earlier[..k + 1] == taken[..k + 1];
      }
      ReadoutForgets(earlier, m, x);
      assert RawAt(taken, n, x);
    }
  }

  /** Between neighbouring samples the average rate lies from `lo` to `hi` bytes per second. */
  ghost predicate RateWithin(taken: seq<Sample>, lo: real, hi: real) {
    forall k :: 0 < k < |taken| ==> PairRate(taken[k - 1], taken[k], lo, hi)
  }

  ghost predicate PairRate(first: Sample, last: Sample, lo: real, hi: real) {
    lo * Secs(last.at - first.at) <= (last.bytes - first.bytes) as real <= hi * Secs(last.at - first.at)
  }

  lemma {:induction false} Telescopes(taken: seq<Sample>, lo: real, hi: real, i: nat, j: nat)
    requires RateWithin(taken, lo, hi) && i <= j < |taken|
    ensures PairRate(taken[i], taken[j], lo, hi)
    decreases j
  {
    if i < j {
      Telescopes(taken, lo, hi, i, j - 1);
      PairRatesAdd(taken[i], taken[j - 1], taken[j], lo, hi);
    }
  }

  lemma PairRatesAdd(a: Sample, b: Sample, c: Sample, lo: real, hi: real)
    requires PairRate(a, b, lo, hi) && PairRate(b, c, lo, hi)
    ensures PairRate(a, c, lo, hi)
  {
    var d, e := Secs(b.at - a.at), Secs(c.at - b.at);
    assert Secs(c.at - a.at) == d + e;
    assert lo * (d + e) == lo * d + lo * e && hi * (d + e) == hi * d + hi * e;
  }

  lemma QuotientWithin(x: real, d: real, lo: real, hi: real)
    requires d > 0.0 && lo * d <= x <= hi * d
    ensures lo <= x / d <= hi
  {
    assert x / d * d == x;
    CancelScale(lo, x / d, d);
    CancelScale(x / d, hi, d);
  }

  lemma CancelScale(a: real, b: real, d: real)
    requires d > 0.0 && a * d <= b * d
    ensures a <= b
  {
  }

  lemma PairWithin(first: Sample, last: Sample, lo: real, hi: real)
    requires first.at < last.at && 0.0 <= hi
    requires PairRate(first, last, lo, hi)
    ensures lo <= Since(last.bytes, first.bytes) as real / Secs(last.at - first.at) <= hi
  {
    var d := Secs(last.at - first.at);
    assert hi * d >= 0.0;
    QuotientWithin(Since(last.bytes, first.bytes) as real, d, lo, hi);
  }

  lemma RawWithin(taken: seq<Sample>, lo: real, hi: real)
    requires Spaced(taken) && RateWithin(taken, lo, hi) && 0.0 <= hi && |Window(taken)| >= 2
    ensures Measurable(Window(taken)) && lo <= RawRate(Window(taken)) <= hi
  {
    var w, n := Window(taken), |taken|;
    WindowIsSuffix(taken);
    var first, last := n - |w|, n - 1;
    assert w[0] == taken[first] && w[|w| - 1] == taken[last];
    Telescopes(taken, lo, hi, first, last);
    PairWithin(taken[first], taken[last], lo, hi);
  }

  lemma Blend(x: real, y: real, lo: real, hi: real)
    requires lo <= x <= hi && lo <= y <= hi
    ensures lo <= SPEED_EWMA_NEW_WEIGHT * x + (1.0 - SPEED_EWMA_NEW_WEIGHT) * y <= hi
  {
  }

  lemma EarlierWithin(taken: seq<Sample>, lo: real, hi: real)
    requires Spaced(taken) && RateWithin(taken, lo, hi) && taken != []
    ensures Spaced(taken[..|taken| - 1]) && RateWithin(taken[..|taken| - 1], lo, hi)
  {
  }

  /**
    However the bytes arrive between samples, and even where their total falls, the readout stays within the
    bounds that hold between neighbouring samples; at an exact rate it is that rate. A falling total counts
    as a standstill, so the upper bound has to admit zero.
  */
  lemma {:induction false} ReadoutStaysWithin(taken: seq<Sample>, lo: real, hi: real)
    requires Spaced(taken) && RateWithin(taken, lo, hi) && 0.0 <= hi
    ensures Smoothed(taken).Some? ==> lo <= Smoothed(taken).value <= hi
    decreases |taken|
  {
    if |Window(taken)| >= 2 {
      RawWithin(taken, lo, hi);
      EarlierWithin(taken, lo, hi);
      var earlier := taken[..|taken| - 1];
      ReadoutStaysWithin(earlier, lo, hi);
      if Smoothed(earlier).Some? {
        Blend(RawRate(Window(taken)), Smoothed(earlier).value, lo, hi);
      }
    }
  }

  /** The same bound from above alone. */
  ghost predicate RateAtMost(taken: seq<Sample>, hi: real) {
    forall k :: 0 < k < |taken| ==> PairAtMost(taken[k - 1], taken[k], hi)
  }

  ghost predicate PairAtMost(first: Sample, last: Sample, hi: real) {
    (last.bytes - first.bytes) as real <= hi * Secs(last.at - first.at)
  }

  lemma ScaleUp(a: real, b: real, d: real)
    requires a <= b && d >= 0.0
    ensures a * d <= b * d
  {
  }

  lemma LowerStill(first: Sample, last: Sample, lo: real, lower: real, hi: real)
    requires first.at <= last.at && lower <= lo && PairRate(first, last, lo, hi)
    ensures PairRate(first, last, lower, hi)
  {
    ScaleUp(lower, lo, Secs(last.at - first.at));
  }

  lemma OwnRate(first: Sample, last: Sample, hi: real) returns (rate: real)
    requires first.at < last.at && PairAtMost(first, last, hi)
    ensures PairRate(first, last, rate, hi)
  {
    var d, x := Secs(last.at - first.at), (last.bytes - first.bytes) as real;
    rate := x / d;
    assert rate * d == x;
  }

  /** Finitely many samples have a least rate between neighbours. */
  lemma {:induction false} Floor(taken: seq<Sample>, hi: real) returns (lo: real)
    requires Spaced(taken) && RateAtMost(taken, hi)
    ensures RateWithin(taken, lo, hi)
    decreases |taken|
  {
    hide PairRate, PairAtMost;
    if |taken| < 2 {
      lo := 0.0;
    } else {
      var n := |taken| - 1;
      var before := Floor(taken[..n], hi);
      SpacedPair(taken, n - 1, n);
      var last := OwnRate(taken[n - 1], taken[n], hi);
      lo := if before < last then before else last;
      forall k | 0 < k < |taken| ensures PairRate(taken[k - 1], taken[k], lo, hi) {
        SpacedPair(taken, k - 1, k);
        if k < n {
          assert PairRate(taken[..n][k - 1], taken[..n][k], before, hi);
        }
        LowerStill(taken[k - 1], taken[k], if k < n then before else last, lo, hi);
      }
    }
  }

  /** If no pair of neighbouring samples exceeds a rate, the readout never does. */
  lemma ReadoutNeverExceeds(taken: seq<Sample>, hi: real)
    requires Spaced(taken) && RateAtMost(taken, hi) && 0.0 <= hi
    ensures Smoothed(taken).Some? ==> Smoothed(taken).value <= hi
  {
    var lo := Floor(taken, hi);
    ReadoutStaysWithin(taken, lo, hi);
  }
}

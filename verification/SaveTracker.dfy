/** The one-notice tracker of failed sidecar saves (`crates/rdlp-downloader/src/atomic.rs`). */
module SaveTracker {
  import opened Wrappers
  import opened Words

  class SaveFailureTracker {
    var consecutive: U32
    const threshold: U32
    var warned: bool

    constructor (threshold: U32)
      ensures this.threshold == threshold && consecutive == 0 && !warned
    {
      this.threshold := threshold;
      consecutive := 0;
      warned := false;
    }

    method RecordFailure() returns (notice: bool)
      modifies this
      ensures consecutive == if old(consecutive) < U32_MAX then old(consecutive) + 1 else U32_MAX
      ensures notice <==> !old(warned) && consecutive >= threshold
      ensures warned == (old(warned) || notice)
    {
      consecutive := if consecutive < U32_MAX then consecutive + 1 else U32_MAX;
      if !warned && consecutive >= threshold {
        warned := true;
        return true;
      }
      return false;
    }

    method RecordSuccess()
      modifies this
      ensures consecutive == 0 && warned == old(warned)
    {
      consecutive := 0;
    }
  }

  /** The number of failures at the end of a list of save results (`true` is a success). */
  function Trailing(results: seq<bool>): nat {
    if results == [] || results[|results| - 1] then 0 else 1 + Trailing(results[..|results| - 1])
  }

  /** The trailing failures are the longest tail of failures. */
  lemma {:induction false} TrailingExactly(results: seq<bool>, n: nat)
    ensures Trailing(results) >= n <==>
      n <= |results| && forall k :: |results| - n <= k < |results| ==> !results[k]
    decreases |results|
  {
    if results != [] && n > 0 {
      var earlier := results[..|results| - 1];
      TrailingExactly(earlier, n - 1);
      if Trailing(results) >= n {
        assert forall k :: |earlier| - (n - 1) <= k < |earlier| ==> !earlier[k];
      } else if n <= |results| && !results[|results| - 1] {
        assert exists k :: |earlier| - (n - 1) <= k < |earlier| && earlier[k];
      }
    }
  }

  /** `n` failures in a row have happened, somewhere up to the end of `results`. */
  predicate Persisted(results: seq<bool>, n: nat) {
    exists k :: 0 <= k <= |results| && Trailing(results[..k]) >= n
  }

  function AtLeastOne(n: nat): nat {
    if n < 1 then 1 else n
  }

  lemma NothingYet(n: nat)
    requires n >= 1
    ensures Trailing([]) == 0 && !Persisted([], n)
  {
  }

  lemma TrailingGrows(results: seq<bool>, r: bool)
    ensures Trailing(results + [r]) == if r then 0 else 1 + Trailing(results)
  {
    assert (results + [r])[..|results|] == results;
  }

  lemma PersistedGrows(results: seq<bool>, r: bool, n: nat)
    requires n >= 1
    ensures Persisted(results + [r], n) <==> Persisted(results, n) || Trailing(results + [r]) >= n
  {
    var all := results + [r];
    assert all[..|all|] == all;
    assert forall k :: 0 <= k <= |results| ==> all[..k] == results[..k];
  }

  /**
    A download's whole series of saves: exactly one notice, at the first save that completes a row of
    `threshold` failures, and none if no such row occurs.
  */
  method NoteSidecarSaves(results: seq<bool>, threshold: U32) returns (notices: seq<bool>)
    ensures |notices| == |results|
    ensures forall k :: 0 <= k < |results| ==>
              (notices[k] <==> Persisted(results[..k + 1], AtLeastOne(threshold))
                               && !Persisted(results[..k], AtLeastOne(threshold)))
  {
    hide Trailing, Persisted;
    NothingYet(AtLeastOne(threshold));
    var tracker := new SaveFailureTracker(threshold);
    var n := AtLeastOne(threshold);
    notices := [];
    for i := 0 to |results|
      invariant |notices| == i && tracker.threshold == threshold
      invariant var run := Trailing(results[..i]);
                tracker.consecutive == if run < U32_MAX then run else U32_MAX
      invariant tracker.warned == Persisted(results[..i], n)
      invariant forall k :: 0 <= k < i ==>
                  (notices[k] <==> Persisted(results[..k + 1], n) && !Persisted(results[..k], n))
    {
      var all := results[..i + 1];
      assert all == results[..i] + [results[i]] && all[..|all| - 1] == results[..i];
      PersistedGrows(results[..i], results[i], n);
      TrailingGrows(results[..i], results[i]);
      if results[i] {
        tracker.RecordSuccess();
        notices := notices + [false];
      } else {
        var notice := tracker.RecordFailure();
        notices := notices + [notice];
      }
    }
  }

  lemma {:induction false} PersistedStays(results: seq<bool>, j: nat, k: nat, n: nat)
    requires j <= k <= |results| && n >= 1 && Persisted(results[..j], n)
    ensures Persisted(results[..k], n)
    decreases k
  {
    if j < k {
      PersistedStays(results, j, k - 1, n);
      assert results[..k] == results[..k - 1] + [results[k - 1]];
      PersistedGrows(results[..k - 1], results[k - 1], n);
    }
  }

  /** The operator hears of it at most once per download. */
  lemma AtMostOneNotice(results: seq<bool>, threshold: U32, j: nat, k: nat)
    requires j < k < |results|
    requires Persisted(results[..j + 1], AtLeastOne(threshold)) && !Persisted(results[..j], AtLeastOne(threshold))
    ensures Persisted(results[..k], AtLeastOne(threshold))
  {
    PersistedStays(results, j + 1, k, AtLeastOne(threshold));
  }
}

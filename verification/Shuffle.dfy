/** The seeded Fisher-Yates shuffle of `crates/rdlp-crypto/src/shuffle.rs`. */
module Shuffle {
  import opened Wrappers

  function Swap<T>(s: seq<T>, i: nat, j: nat): (r: seq<T>)
    requires i < |s| && j < |s|
    ensures |r| == |s|
  {
    s[i := s[j]][j := s[i]]
  }

  /** The number of draws a shuffle of `n` items makes. */
  function DrawCount(n: nat): nat {
    if n == 0 then 0 else n - 1
  }

  /** The first `m` draws lie inside their bounds: draw k, below its bound, is at most its position. */
  ghost predicate Answered(draws: seq<nat>, m: nat)
    requires m <= |draws|
  {
    forall k :: 0 <= k < m ==> draws[k] <= |draws| - k
  }

  /** One draw per position from `i` down to 1, each inside its bound. */
  ghost predicate InBounds(i: nat, draws: seq<nat>) {
    |draws| == i && Answered(draws, i)
  }

  /** The swaps for the positions `i` down to 1. */
  function ShuffleFrom<T>(s: seq<T>, i: nat, draws: seq<nat>): (r: seq<T>)
    requires (i == 0 || i < |s|) && InBounds(i, draws)
    ensures |r| == |s|
    decreases i
  {
    if i == 0 then s else ShuffleFrom(Swap(s, i, draws[0]), i - 1, draws[1..])
  }

  /** The same swaps, last one first. */
  function UnshuffleFrom<T>(s: seq<T>, i: nat, draws: seq<nat>): (r: seq<T>)
    requires (i == 0 || i < |s|) && InBounds(i, draws)
    ensures |r| == |s|
    decreases i
  {
    if i == 0 then s else Swap(UnshuffleFrom(s, i - 1, draws[1..]), i, draws[0])
  }

  function Shuffled<T>(s: seq<T>, draws: seq<nat>): seq<T>
    requires InBounds(DrawCount(|s|), draws)
  {
    ShuffleFrom(s, DrawCount(|s|), draws)
  }

  function Unshuffled<T>(s: seq<T>, draws: seq<nat>): seq<T>
    requires InBounds(DrawCount(|s|), draws)
  {
    UnshuffleFrom(s, DrawCount(|s|), draws)
  }

  // ---- The loop -------------------------------------------------------------------------------------------

  /** What a generator answers to its k-th call with bound `b`. */
  type Source = (nat, nat) -> nat

  /** The bounds asked for are `n` and downwards, to 2 when all draws are made. */
  ghost predicate Descending(n: nat, bounds: seq<nat>) {
    |bounds| <= DrawCount(n) && forall k :: 0 <= k < |bounds| ==> bounds[k] == n - k
  }

  /** The draws a full shuffle of `n` items is answered. */
  function Draws(n: nat, next: Source): (draws: seq<nat>)
    ensures |draws| == DrawCount(n) && forall k :: 0 <= k < |draws| ==> draws[k] == next(k, n - k)
  {
    seq(DrawCount(n), k requires 0 <= k < DrawCount(n) => next(k, n - k))
  }

  /** The `m`-th draw is the first one outside its bound. */
  ghost predicate Refused(draws: seq<nat>, m: nat) {
    0 < m <= |draws| && Answered(draws, m - 1) && draws[m - 1] > |draws| - (m - 1)
  }

  /** The items after the first `m` swaps. */
  function Swapped<T>(items: seq<T>, draws: seq<nat>, m: nat): (r: seq<T>)
    requires |draws| == DrawCount(|items|) && m <= |draws| && Answered(draws, m)
    ensures |r| == |items|
    decreases m
  {
    if m == 0 then items else Swap(Swapped(items, draws, m - 1), |draws| - (m - 1), draws[m - 1])
  }

  lemma NoneSwapped<T>(items: seq<T>, draws: seq<nat>)
    requires |draws| == DrawCount(|items|)
    ensures Answered(draws, 0) && Swapped(items, draws, 0) == items && Descending(|items|, [])
  {
  }

  lemma SwappedNext<T>(items: seq<T>, draws: seq<nat>, m: nat, i: nat)
    requires |draws| == DrawCount(|items|) && m + i == |draws| && 0 < i && Answered(draws, m + 1)
    ensures Swapped(items, draws, m + 1) == Swap(Swapped(items, draws, m), i, draws[m])
  {
  }

  /** The swaps made and the swaps to come are together the shuffle. */
  lemma {:induction false} SwappedThenShuffled<T>(items: seq<T>, draws: seq<nat>, m: nat)
    requires InBounds(DrawCount(|items|), draws) && m <= |draws|
    ensures InBounds(|draws| - m, draws[m..])
    ensures ShuffleFrom(Swapped(items, draws, m), |draws| - m, draws[m..]) == Shuffled(items, draws)
    decreases m
  {
    if m == 0 {
      assert draws[0..] == draws;
    } else {
      SwappedThenShuffled(items, draws, m - 1);
      assert draws[m - 1..][1..] == draws[m..];
    }
  }

  lemma AllSwapped<T>(items: seq<T>, draws: seq<nat>)
    requires InBounds(DrawCount(|items|), draws)
    ensures Swapped(items, draws, |draws|) == Shuffled(items, draws)
  {
    SwappedThenShuffled(items, draws, |draws|);
  }

  lemma DrawnNext(n: nat, next: Source, bounds: seq<nat>)
    requires Descending(n, bounds) && |bounds| < DrawCount(n) && Answered(Draws(n, next), |bounds|)
    ensures var k := |bounds|; var draws := Draws(n, next);
      && Descending(n, bounds + [n - k]) && draws[k] == next(k, n - k)
      && if draws[k] < n - k then Answered(draws, k + 1) else Refused(draws, k + 1) && !InBounds(|draws|, draws)
  {
  }

  method SwapInPlace<T>(a: array<T>, i: nat, j: nat)
    requires i < a.Length && j < a.Length
    modifies a
    ensures a[..] == Swap(old(a[..]), i, j)
  {
    a[i], a[j] := a[j], a[i];
  }

  /** The loop over the positions, in place. */
  method SwapAll<T>(copy: array<T>, next: Source) returns (done: bool, bounds: seq<nat>)
    modifies copy
    ensures done <==> InBounds(DrawCount(copy.Length), Draws(copy.Length, next))
    ensures Descending(copy.Length, bounds)
    ensures done ==>
      |bounds| == DrawCount(copy.Length) && copy[..] == Shuffled(old(copy[..]), Draws(copy.Length, next))
    ensures !done ==> Refused(Draws(copy.Length, next), |bounds|)
  {
    hide Swap, Swapped, Shuffled, Refused, Descending, Answered, Draws;
    ghost var items, draws := copy[..], Draws(copy.Length, next);
    ghost var m, swapped := 0, items;
    bounds := [];
    var i := DrawCount(copy.Length);
    NoneSwapped(items, draws);
    while i > 0
      invariant m + i == |draws| && |bounds| == m
      invariant Descending(copy.Length, bounds)
      invariant Answered(draws, m) && swapped == Swapped(items, draws, m)
      invariant copy[..] == swapped
    {
      var bound := i + 1;
      var draw := next(|bounds|, bound);
      DrawnNext(copy.Length, next, bounds);
      bounds := bounds + [bound];
      if draw >= bound {
        return false, bounds;
      }
      SwappedNext(items, draws, m, i);
      SwapInPlace(copy, i, draw);
      swapped, m := Swapped(items, draws, m + 1), m + 1;
      i := i - 1;
    }
    AllSwapped(items, draws);
    done := true;
  }

  /**
    The shuffle of a copy of `items`. A draw outside its bound panics, which is the result None; `bounds` are
    the bounds the generator was asked for, in order.
  */
  method SeededShuffle<T>(items: seq<T>, next: Source) returns (result: Option<array<T>>, bounds: seq<nat>)
    ensures result.Some? <==> InBounds(DrawCount(|items|), Draws(|items|, next))
    ensures Descending(|items|, bounds)
    ensures result.Some? ==>
      && fresh(result.value) && |bounds| == DrawCount(|items|)
      && result.value[..] == Shuffled(items, Draws(|items|, next))
    ensures result.None? ==> Refused(Draws(|items|, next), |bounds|)
  {
    var copy := new T[|items|](i requires 0 <= i < |items| => items[i]);
    assert copy[..] == items;
    var done;
    done, bounds := SwapAll(copy, next);
    result := if done then Some(copy) else None;
  }

  // ---- It rearranges, and the swaps undo it ---------------------------------------------------------------

  lemma SwapKeepsItems<T>(s: seq<T>, i: nat, j: nat)
    requires i < |s| && j < |s|
    ensures multiset(Swap(s, i, j)) == multiset(s)
  {
  }

  lemma {:induction false} KeepsItems<T>(s: seq<T>, i: nat, draws: seq<nat>)
    requires (i == 0 || i < |s|) && InBounds(i, draws)
    ensures multiset(ShuffleFrom(s, i, draws)) == multiset(s)
    decreases i
  {
    if i > 0 {
      SwapKeepsItems(s, i, draws[0]);
      KeepsItems(Swap(s, i, draws[0]), i - 1, draws[1..]);
    }
  }

  lemma SwapTwice<T>(s: seq<T>, i: nat, j: nat)
    requires i < |s| && j < |s|
    ensures Swap(Swap(s, i, j), i, j) == s
  {
  }

  lemma {:induction false} ReplayUndoes<T>(s: seq<T>, i: nat, draws: seq<nat>)
    requires (i == 0 || i < |s|) && InBounds(i, draws)
    ensures UnshuffleFrom(ShuffleFrom(s, i, draws), i, draws) == s
    decreases i
  {
    if i > 0 {
      ReplayUndoes(Swap(s, i, draws[0]), i - 1, draws[1..]);
      SwapTwice(s, i, draws[0]);
    }
  }

  lemma {:induction false} ReplayUndone<T>(s: seq<T>, i: nat, draws: seq<nat>)
    requires (i == 0 || i < |s|) && InBounds(i, draws)
    ensures ShuffleFrom(UnshuffleFrom(s, i, draws), i, draws) == s
    decreases i
  {
    if i > 0 {
      var t := UnshuffleFrom(s, i - 1, draws[1..]);
      SwapTwice(t, i, draws[0]);
      ReplayUndone(s, i - 1, draws[1..]);
    }
  }

  /** A shuffle is a rearrangement, and replaying its swaps in reverse is its two-sided inverse. */
  lemma ShuffleIsInvertible<T>(s: seq<T>, draws: seq<nat>)
    requires InBounds(DrawCount(|s|), draws)
    ensures multiset(Shuffled(s, draws)) == multiset(s)
    ensures Unshuffled(Shuffled(s, draws), draws) == s
    ensures Shuffled(Unshuffled(s, draws), draws) == s
  {
    KeepsItems(s, DrawCount(|s|), draws);
    ReplayUndoes(s, DrawCount(|s|), draws);
    ReplayUndone(s, DrawCount(|s|), draws);
  }

  // ---- The shuffle as drawing from a hat -------------------------------------------------------------------

  /** The last item takes the place of the one at `d`, and the end is cut off. */
  function Struck<T>(s: seq<T>, d: nat): seq<T>
    requires d < |s|
  {
    s[d := s[|s| - 1]][..|s| - 1]
  }

  /** A prefix is shuffled without regard to what follows it. */
  lemma {:induction false} PrefixShuffles<T>(s: seq<T>, tail: seq<T>, i: nat, draws: seq<nat>)
    requires (i == 0 || i < |s|) && InBounds(i, draws)
    ensures ShuffleFrom(s + tail, i, draws) == ShuffleFrom(s, i, draws) + tail
    decreases i
  {
    if i > 0 {
      assert Swap(s + tail, i, draws[0]) == Swap(s, i, draws[0]) + tail;
      PrefixShuffles(Swap(s, i, draws[0]), tail, i - 1, draws[1..]);
    }
  }

  /**
    The first draw picks what comes last; the rest is the shuffle, by the other draws, of the items left when
    the last one has taken the place of the one picked.
  */
  lemma FirstDrawComesLast<T>(s: seq<T>, draws: seq<nat>)
    requires |s| >= 2 && InBounds(|s| - 1, draws)
    ensures InBounds(DrawCount(|s| - 1), draws[1..])
    ensures Shuffled(s, draws) == Shuffled(Struck(s, draws[0]), draws[1..]) + [s[draws[0]]]
  {
    var n, d := |s| - 1, draws[0];
    assert Swap(s, n, d) == Struck(s, d) + [s[d]];
    PrefixShuffles(Struck(s, d), [s[d]], n - 1, draws[1..]);
  }

  /** Drawing zero every time moves the first item to the end. */
  lemma {:induction false} ZeroDrawsRotate<T>(s: seq<T>, draws: seq<nat>)
    requires |s| >= 1 && |draws| == |s| - 1 && forall k :: 0 <= k < |draws| ==> draws[k] == 0
    ensures InBounds(DrawCount(|s|), draws) && Shuffled(s, draws) == s[1..] + [s[0]]
    decreases |s|
  {
    if |s| == 1 {
      assert s[1..] + [s[0]] == s;
    } else {
      FirstDrawComesLast(s, draws);
      var t := Struck(s, 0);
      ZeroDrawsRotate(t, draws[1..]);
      assert t[1..] + [t[0]] == s[1..];
    }
  }

  // ---- Each arrangement comes from exactly one sequence of draws ------------------------------------------

  ghost predicate Distinct<T>(s: seq<T>) {
    forall j, k :: 0 <= j < |s| && 0 <= k < |s| && s[j] == s[k] ==> j == k
  }

  /** A position is final once its own swap is done. */
  lemma {:induction false} Settled<T>(s: seq<T>, i: nat, draws: seq<nat>, k: nat)
    requires (i == 0 || i < |s|) && InBounds(i, draws) && i < k < |s|
    ensures ShuffleFrom(s, i, draws)[k] == s[k]
    decreases i
  {
    if i > 0 {
      Settled(Swap(s, i, draws[0]), i - 1, draws[1..], k);
    }
  }

  lemma FirstDrawShows<T>(s: seq<T>, i: nat, draws: seq<nat>)
    requires 0 < i < |s| && InBounds(i, draws)
    ensures ShuffleFrom(s, i, draws)[i] == s[draws[0]]
  {
    Settled(Swap(s, i, draws[0]), i - 1, draws[1..], i);
  }

  lemma SwapKeepsDistinct<T>(s: seq<T>, i: nat, j: nat)
    requires i < |s| && j < |s| && Distinct(s)
    ensures Distinct(Swap(s, i, j))
  {
  }

  lemma {:induction false} DrawsShow<T>(s: seq<T>, i: nat, d: seq<nat>, e: seq<nat>)
    requires (i == 0 || i < |s|) && InBounds(i, d) && InBounds(i, e) && Distinct(s)
    requires ShuffleFrom(s, i, d) == ShuffleFrom(s, i, e)
    ensures d == e
    decreases i
  {
    if i > 0 {
      FirstDrawShows(s, i, d);
      FirstDrawShows(s, i, e);
      SwapKeepsDistinct(s, i, d[0]);
      DrawsShow(Swap(s, i, d[0]), i - 1, d[1..], e[1..]);
      assert d == [d[0]] + d[1..] && e == [e[0]] + e[1..];
    }
  }

  /** `s` and `t` hold the same items up to position `i` and agree after it. */
  ghost predicate SameUpTo<T>(s: seq<T>, t: seq<T>, i: nat) {
    && |s| == |t| && (i == 0 || i < |s|)
    && (|s| > 0 ==> multiset(s[..i + 1]) == multiset(t[..i + 1]))
    && forall k :: i < k < |s| ==> s[k] == t[k]
  }

  lemma LastItemIsSomewhere<T>(s: seq<T>, t: seq<T>, i: nat) returns (j: nat)
    requires SameUpTo(s, t, i) && i < |s|
    ensures j <= i && s[j] == t[i]
  {
    assert t[i] == t[..i + 1][i];
    assert t[i] in multiset(s[..i + 1]);
    j :| 0 <= j < i + 1 && s[j] == t[i];
  }

  lemma SwapSettles<T>(s: seq<T>, t: seq<T>, i: nat, j: nat)
    requires SameUpTo(s, t, i) && 0 < i < |s| && j <= i && s[j] == t[i]
    ensures SameUpTo(Swap(s, i, j), t, i - 1)
  {
    hide Swap;
    var u := Swap(s, i, j);
    AgreesBehind(s, t, i, j);
    SwapOfPrefix(s, i, j);
    SwapKeepsItems(s[..i + 1], i, j);
    DropLast(u[..i + 1], t[..i + 1]);
    PrefixOfPrefix(u, i);
    PrefixOfPrefix(t, i);
  }

  lemma AgreesBehind<T>(s: seq<T>, t: seq<T>, i: nat, j: nat)
    requires i < |s| == |t| && j <= i && s[j] == t[i] && forall k :: i < k < |s| ==> s[k] == t[k]
    ensures forall k :: i <= k < |s| ==> Swap(s, i, j)[k] == t[k]
  {
  }

  lemma SwapOfPrefix<T>(s: seq<T>, i: nat, j: nat)
    requires i < |s| && j <= i
    ensures Swap(s, i, j)[..i + 1] == Swap(s[..i + 1], i, j)
  {
  }

  lemma PrefixOfPrefix<T>(s: seq<T>, i: nat)
    requires i < |s|
    ensures s[..i + 1][..i] == s[..i]
  {
  }

  lemma OnlyOneItem<T>(s: seq<T>, t: seq<T>)
    requires SameUpTo(s, t, 0)
    ensures s == t
  {
    if |s| > 0 {
      var j := LastItemIsSomewhere(s, t, 0);
    }
  }

  lemma {:induction false} DrawsFor<T>(s: seq<T>, i: nat, t: seq<T>) returns (draws: seq<nat>)
    requires SameUpTo(s, t, i)
    ensures InBounds(i, draws) && ShuffleFrom(s, i, draws) == t
    decreases i
  {
    if i == 0 {
      draws := [];
      OnlyOneItem(s, t);
    } else {
      var j := LastItemIsSomewhere(s, t, i);
      SwapSettles(s, t, i, j);
      var rest := DrawsFor(Swap(s, i, j), i - 1, t);
      draws := [j] + rest;
      assert draws[1..] == rest;
    }
  }

  lemma DropLast<T>(u: seq<T>, t: seq<T>)
    requires |u| == |t| > 0 && multiset(u) == multiset(t) && u[|u| - 1] == t[|t| - 1]
    ensures multiset(u[..|u| - 1]) == multiset(t[..|t| - 1])
  {
    WithoutLast(u);
    WithoutLast(t);
  }

  lemma WithoutLast<T>(u: seq<T>)
    requires u != []
    ensures multiset(u[..|u| - 1]) == multiset(u) - multiset{u[|u| - 1]}
  {
    assert u == u[..|u| - 1] + [u[|u| - 1]];
  }

  /**
    Every arrangement of the items is reached by some in-range draws, and when the items are distinct by
    exactly one sequence of them: the draws and the arrangements correspond one to one.
  */
  lemma EveryArrangementOnce<T>(s: seq<T>, t: seq<T>) returns (draws: seq<nat>)
    requires multiset(t) == multiset(s)
    ensures InBounds(DrawCount(|s|), draws) && Shuffled(s, draws) == t
    ensures Distinct(s) ==>
      forall e :: InBounds(DrawCount(|s|), e) && Shuffled(s, e) == t ==> e == draws
  {
    assert |multiset(s)| == |s| && |multiset(t)| == |t|;
    if |s| > 0 {
      assert s[..|s| - 1 + 1] == s && t[..|s| - 1 + 1] == t;
    }
    draws := DrawsFor(s, DrawCount(|s|), t);
    if Distinct(s) {
      forall e | InBounds(DrawCount(|s|), e) && Shuffled(s, e) == t ensures e == draws {
        DrawsShow(s, DrawCount(|s|), e, draws);
      }
    }
  }
}

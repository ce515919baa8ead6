/**
  The retry mechanism and its list-wide budget (`crates/rdlp-downloader/src/retry.rs`,
  `crates/rdlp-downloader/src/fragments/budget.rs`, and the retry rule of `crates/rdlp-core/src/retry.rs`).
*/
module Retry {
  import opened Wrappers
  import opened Bits
  import opened Words

  datatype Error = Http(status: nat) | Network | Io | Other | Cancelled

  predicate IsRetryable(e: Error) {
    match e
    case Http(status) => status == 429 || status >= 500
    case Network => true
    case Io => true
    case Other => false
    case Cancelled => false
  }

  /** Retried are server errors, throttling and transport failures, and nothing a repetition could not cure. */
  lemma RetriedExactly(e: Error)
    ensures e.Http? ==> (IsRetryable(e) <==> e.status == 429 || e.status / 100 >= 5)
    ensures !e.Http? ==> (IsRetryable(e) <==> e == Network || e == Io)
  {
  }

  // ---- The budget --------------------------------------------------------------------------------------

  const RETRY_BUDGET_FRAGMENT_SHARE: nat := 10

  function BudgetFor(maxRetries: nat, totalFragments: nat): nat {
    var share := totalFragments / RETRY_BUDGET_FRAGMENT_SHARE;
    var allowances := if share < 1 then 1 else share;
    if maxRetries * allowances > U64_MAX then U64_MAX else maxRetries * allowances
  }

  /**
    However long the list, the budget averages a tenth of an allowance per fragment, and it is never less
    than one fragment's allowance.
  */
  lemma BudgetIsATenth(maxRetries: nat, totalFragments: nat)
    requires maxRetries <= U64_MAX
    ensures BudgetFor(maxRetries, totalFragments) >= maxRetries
    ensures totalFragments >= 10 ==> 10 * BudgetFor(maxRetries, totalFragments) <= maxRetries * totalFragments
    ensures BudgetFor(maxRetries, totalFragments) < U64_MAX ==>
      maxRetries * (totalFragments - 9) <= 10 * BudgetFor(maxRetries, totalFragments)
  {
    var share, rest := totalFragments / 10, totalFragments % 10;
    var allowances := if share < 1 then 1 else share;
    assert totalFragments == 10 * share + rest;
    MulMonotone(1, allowances, maxRetries);
    MulMonotone(totalFragments - 9, 10 * allowances, maxRetries);
    assert maxRetries * (10 * allowances) == 10 * (maxRetries * allowances);
    if totalFragments >= 10 {
      MulMonotone(10 * allowances, totalFragments, maxRetries);
    }
  }

  class FragmentRetryBudget {
    var remaining: nat

    constructor ForList(maxRetries: nat, totalFragments: nat)
      ensures remaining == BudgetFor(maxRetries, totalFragments)
    {
      var share := totalFragments / RETRY_BUDGET_FRAGMENT_SHARE;
      var allowances := if share < 1 then 1 else share;
      remaining := if maxRetries * allowances > U64_MAX then U64_MAX else maxRetries * allowances;
    }

    method TryConsume() returns (granted: bool)
      modifies this
      ensures granted <==> old(remaining) > 0
      ensures remaining == if granted then old(remaining) - 1 else 0
    {
      granted := remaining > 0;
      if granted {
        remaining := remaining - 1;
      }
    }
  }

  /** A retry tally shared by all fetches of one download. */
  class Tally {
    var retries: nat
  }

  // ---- All fetches at once -------------------------------------------------------------------------------

  datatype End = Success | FatalError | BudgetEmpty | Exhausted | CancelledAwake | CancelledAsleep

  datatype State =
    | Waiting               // for its turn
    | Trying                // a request is out
    | Granted               // failed transiently and drew a token
    | Sleeping              // backing off before another attempt
    | Finished(end: End)

  datatype Task = Task(attempts: nat, retries: nat, tokens: nat, state: State)

  /** `initial` tokens were handed out at the start; `remaining` and `tally` are shared by all tasks. */
  datatype Pool = Pool(initial: nat, remaining: nat, tally: nat, tasks: seq<Task>)

  datatype Move = Start | Succeed | FailFatally | FailTransiently | TakeDelay | Wake | SeeCancel

  predicate Init(p: Pool) {
    && p.remaining == p.initial
    && p.tally == 0
    && forall i :: 0 <= i < |p.tasks| ==> p.tasks[i] == Task(0, 0, 0, Waiting)
  }

  function Set(p: Pool, i: nat, t: Task): Pool
    requires i < |p.tasks|
  {
    p.(tasks := p.tasks[i := t])
  }

  /** Task `i` makes one atomic move; moves of different tasks interleave freely. */
  predicate Next(maxRetries: nat, p: Pool, i: nat, m: Move, p': Pool) {
    && i < |p.tasks|
    && var t := p.tasks[i];
    match m
    case Start => t.state.Waiting? && p' == Set(p, i, t.(attempts := 1, state := Trying))
    case Succeed => t.state.Trying? && p' == Set(p, i, t.(state := Finished(Success)))
    case FailFatally => t.state.Trying? && p' == Set(p, i, t.(state := Finished(FatalError)))
    case FailTransiently =>
      && t.state.Trying?
      && p' == if p.remaining > 0
               then Set(p, i, t.(tokens := t.tokens + 1, state := Granted)).(remaining := p.remaining - 1)
               else Set(p, i, t.(state := Finished(BudgetEmpty)))
    case TakeDelay =>
      && t.state.Granted?
      && p' == if t.retries < maxRetries
               then Set(p, i, t.(retries := t.retries + 1, state := Sleeping)).(tally := p.tally + 1)
               else Set(p, i, t.(state := Finished(Exhausted)))
    case Wake => t.state.Sleeping? && p' == Set(p, i, t.(attempts := t.attempts + 1, state := Trying))
    case SeeCancel =>
      && !t.state.Finished? && !t.state.Granted?
      && p' == Set(p, i, t.(state := Finished(if t.state.Sleeping? then CancelledAsleep else CancelledAwake)))
  }

  predicate Schedule(maxRetries: nat, pools: seq<Pool>, moves: seq<(nat, Move)>) {
    && |pools| == |moves| + 1
    && Init(pools[0])
    && forall k :: 0 <= k < |moves| ==> Next(maxRetries, pools[k], moves[k].0, moves[k].1, pools[k + 1])
  }

  function Sum(tasks: seq<Task>, f: Task -> nat): nat {
    if tasks == [] then 0 else Sum(tasks[..|tasks| - 1], f) + f(tasks[|tasks| - 1])
  }

  lemma {:induction false} SumUpdate(tasks: seq<Task>, f: Task -> nat, i: nat, t: Task)
    requires i < |tasks|
    ensures Sum(tasks[i := t], f) + f(tasks[i]) == Sum(tasks, f) + f(t)
    decreases |tasks|
  {
    var n := |tasks| - 1;
    if i == n {
      assert tasks[i := t][..n] == tasks[..n];
    } else {
      assert tasks[i := t][..n] == tasks[..n][i := t];
      SumUpdate(tasks[..n], f, i, t);
    }
  }

  lemma {:induction false} SumOfZeros(tasks: seq<Task>, f: Task -> nat)
    requires forall i :: 0 <= i < |tasks| ==> f(tasks[i]) == 0
    ensures Sum(tasks, f) == 0
    decreases |tasks|
  {
    if tasks != [] {
      SumOfZeros(tasks[..|tasks| - 1], f);
    }
  }

  lemma {:induction false} SumAgrees(tasks: seq<Task>, f: Task -> nat, g: Task -> nat)
    requires forall i :: 0 <= i < |tasks| ==> f(tasks[i]) == g(tasks[i])
    ensures Sum(tasks, f) == Sum(tasks, g)
    decreases |tasks|
  {
    if tasks != [] {
      SumAgrees(tasks[..|tasks| - 1], f, g);
    }
  }

  function Both(f: Task -> nat, g: Task -> nat): Task -> nat {
    (t: Task) => f(t) + g(t)
  }

  lemma {:induction false} SumAdds(tasks: seq<Task>, f: Task -> nat, g: Task -> nat)
    ensures Sum(tasks, Both(f, g)) == Sum(tasks, f) + Sum(tasks, g)
    decreases |tasks|
  {
    if tasks != [] {
      SumAdds(tasks[..|tasks| - 1], f, g);
    }
  }

  function Tokens(t: Task): nat { t.tokens }

  function Retries(t: Task): nat { t.retries }

  /** A token drawn for a retry not (yet) taken. */
  function Unused(t: Task): nat {
    if t.state.Granted? || t.state == Finished(Exhausted) then 1 else 0
  }

  predicate TaskInvariant(maxRetries: nat, t: Task) {
    && t.tokens == t.retries + Unused(t)
    && t.retries <= maxRetries
    && t.attempts <= maxRetries + 1
    && match t.state
       case Waiting => t.attempts == t.retries == 0
       case Sleeping => t.attempts == t.retries
       case Finished(CancelledAsleep) => t.attempts == t.retries
       case Finished(CancelledAwake) => t.attempts == t.retries + 1 || t.attempts == t.retries == 0
       case Finished(Exhausted) => t.attempts == t.retries + 1 == maxRetries + 1
       case _ => t.attempts == t.retries + 1
  }

  predicate PoolInvariant(maxRetries: nat, p: Pool) {
    && (forall i :: 0 <= i < |p.tasks| ==> TaskInvariant(maxRetries, p.tasks[i]))
    && p.remaining + Sum(p.tasks, Tokens) == p.initial
    && p.tally == Sum(p.tasks, Retries)
  }

  lemma MovePreserves(maxRetries: nat, p: Pool, i: nat, m: Move, p': Pool)
    requires i < |p.tasks| && TaskInvariant(maxRetries, p.tasks[i])
    requires Next(maxRetries, p, i, m, p')
    ensures p'.initial == p.initial && p'.tasks == p.tasks[i := p'.tasks[i]]
    ensures TaskInvariant(maxRetries, p'.tasks[i])
    ensures p'.remaining + p'.tasks[i].tokens == p.remaining + p.tasks[i].tokens
    ensures p'.tally - p'.tasks[i].retries == p.tally - p.tasks[i].retries
  {
  }

  lemma NextPreserves(maxRetries: nat, p: Pool, i: nat, m: Move, p': Pool)
    requires PoolInvariant(maxRetries, p) && Next(maxRetries, p, i, m, p')
    ensures PoolInvariant(maxRetries, p') && p'.initial == p.initial
  {
    MovePreserves(maxRetries, p, i, m, p');
    SumUpdate(p.tasks, Tokens, i, p'.tasks[i]);
    SumUpdate(p.tasks, Retries, i, p'.tasks[i]);
  }

  lemma {:induction false} PoolInvariantHolds(maxRetries: nat, pools: seq<Pool>, moves: seq<(nat, Move)>, n: nat)
    requires Schedule(maxRetries, pools, moves) && n < |pools|
    ensures PoolInvariant(maxRetries, pools[n]) && pools[n].initial == pools[0].initial
  {
    if n == 0 {
      SumOfZeros(pools[0].tasks, Tokens);
      SumOfZeros(pools[0].tasks, Retries);
    } else {
      PoolInvariantHolds(maxRetries, pools, moves, n - 1);
      NextPreserves(maxRetries, pools[n - 1], moves[n - 1].0, moves[n - 1].1, pools[n]);
    }
  }

  /**
    Under any interleaving the tokens are conserved: those drawn are the retries counted plus one for each
    task that drew a token its allowance could not use. So the retries never exceed the budget.
  */
  lemma TokensAreConserved(maxRetries: nat, pools: seq<Pool>, moves: seq<(nat, Move)>, n: nat)
    requires Schedule(maxRetries, pools, moves) && n < |pools|
    ensures var p := pools[n];
            && p.remaining + p.tally + Sum(p.tasks, Unused) == pools[0].initial
            && p.tally <= pools[0].initial
  {
    PoolInvariantHolds(maxRetries, pools, moves, n);
    var tasks := pools[n].tasks;
    SumAdds(tasks, Retries, Unused);
    SumAgrees(tasks, Tokens, Both(Retries, Unused));
  }

  predicate EndedUncancelled(t: Task) {
    t.state.Finished? && !t.state.end.CancelledAwake? && !t.state.end.CancelledAsleep?
  }

  /** Every fetch makes at most `max_retries + 1` attempts, and one that was not cancelled counted all but its first. */
  lemma AttemptsAreBounded(maxRetries: nat, pools: seq<Pool>, moves: seq<(nat, Move)>, n: nat, i: nat)
    requires Schedule(maxRetries, pools, moves) && n < |pools| && i < |pools[n].tasks|
    ensures var t := pools[n].tasks[i];
            && t.attempts <= maxRetries + 1
            && (EndedUncancelled(t) ==> t.attempts == t.retries + 1)
  {
    PoolInvariantHolds(maxRetries, pools, moves, n);
    assert TaskInvariant(maxRetries, pools[n].tasks[i]);
  }

  /** A fetch that has ended stays as it is. */
  lemma {:induction false} EndedStays(maxRetries: nat, pools: seq<Pool>, moves: seq<(nat, Move)>, m: nat, n: nat,
                                      i: nat)
    requires Schedule(maxRetries, pools, moves) && m <= n < |pools|
    requires i < |pools[m].tasks| && pools[m].tasks[i].state.Finished?
    ensures i < |pools[n].tasks| && pools[n].tasks[i] == pools[m].tasks[i]
    decreases n
  {
    if m < n {
      EndedStays(maxRetries, pools, moves, m, n - 1, i);
      assert Next(maxRetries, pools[n - 1], moves[n - 1].0, moves[n - 1].1, pools[n]);
    }
  }

  /**
    A fatal error costs nothing: it moves neither the budget nor the counter, and to the end of every
    schedule the tokens its fetch ever drew are the retries it took before.
  */
  lemma FatalErrorsAreFree(maxRetries: nat, pools: seq<Pool>, moves: seq<(nat, Move)>, m: nat, n: nat, i: nat)
    requires Schedule(maxRetries, pools, moves) && m < n < |pools| && moves[m] == (i, FailFatally)
    ensures pools[m + 1].remaining == pools[m].remaining && pools[m + 1].tally == pools[m].tally
    ensures i < |pools[m].tasks| && i < |pools[n].tasks|
    ensures pools[n].tasks[i] == pools[m].tasks[i].(state := Finished(FatalError))
    ensures pools[n].tasks[i].tokens == pools[n].tasks[i].retries == pools[n].tasks[i].attempts - 1
  {
    PoolInvariantHolds(maxRetries, pools, moves, m);
    assert Next(maxRetries, pools[m], moves[m].0, moves[m].1, pools[m + 1]);
    assert TaskInvariant(maxRetries, pools[m].tasks[i]);
    EndedStays(maxRetries, pools, moves, m + 1, n, i);
  }

  function Attempts(t: Task): nat { t.attempts }

  /** When every fetch has ended uncancelled, the shared counter is all attempts less one per fetch. */
  lemma TallyIsAttemptsLessOne(maxRetries: nat, pools: seq<Pool>, moves: seq<(nat, Move)>, n: nat)
    requires Schedule(maxRetries, pools, moves) && n < |pools|
    requires forall i :: 0 <= i < |pools[n].tasks| ==> EndedUncancelled(pools[n].tasks[i])
    ensures pools[n].tally + |pools[n].tasks| == Sum(pools[n].tasks, Attempts)
  {
    PoolInvariantHolds(maxRetries, pools, moves, n);
    var tasks := pools[n].tasks;
    forall i | 0 <= i < |tasks| ensures Attempts(tasks[i]) == Retries(tasks[i]) + 1 {
      AttemptsAreBounded(maxRetries, pools, moves, n, i);
    }
    SumAgrees(tasks, Attempts, Both(Retries, One));
    SumAdds(tasks, Retries, One);
    SumOfOnes(tasks);
  }

  function One(t: Task): nat { 1 }

  lemma {:induction false} SumOfOnes(tasks: seq<Task>)
    ensures Sum(tasks, One) == |tasks|
    decreases |tasks|
  {
    if tasks != [] {
      SumOfOnes(tasks[..|tasks| - 1]);
    }
  }

  // ---- One fetch's moves through the pool ------------------------------------------------------------------

  /** Moves of task `i` alone, from a pool on. */
  datatype Walk = Walk(pools: seq<Pool>, moves: seq<Move>)

  ghost predicate Solo(maxRetries: nat, from: Pool, i: nat, w: Walk) {
    && |w.pools| == |w.moves| + 1
    && w.pools[0] == from
    && forall k :: 0 <= k < |w.moves| ==> Next(maxRetries, w.pools[k], i, w.moves[k], w.pools[k + 1])
  }

  /** The pool `p` with task `i` at `t`, its tokens drawn and its retries counted. */
  ghost function At(p: Pool, i: nat, t: Task): Pool
    requires i < |p.tasks| && t.tokens <= p.remaining
  {
    Pool(p.initial, p.remaining - t.tokens, p.tally + t.retries, p.tasks[i := t])
  }

  /** `w` takes task `i`, new to the pool, to `t`. */
  ghost predicate Leads(maxRetries: nat, from: Pool, i: nat, w: Walk, t: Task) {
    && Solo(maxRetries, from, i, w)
    && i < |from.tasks| && t.tokens <= from.remaining
    && w.pools[|w.moves|] == At(from, i, t)
  }

  lemma Unmoved(maxRetries: nat, from: Pool, i: nat) returns (w: Walk)
    requires i < |from.tasks| && from.tasks[i] == Pausing(0)
    ensures Leads(maxRetries, from, i, w, Pausing(0))
  {
    w := Walk([from], []);
  }

  lemma Moved(maxRetries: nat, from: Pool, i: nat, w: Walk, t: Task, m: Move, t': Task) returns (w': Walk)
    requires Leads(maxRetries, from, i, w, t) && t'.tokens <= from.remaining
    requires Next(maxRetries, At(from, i, t), i, m, At(from, i, t'))
    ensures Leads(maxRetries, from, i, w', t')
  {
    hide Next;
    w' := Walk(w.pools + [At(from, i, t')], w.moves + [m]);
  }

  /** The task after `k` retries, about to send its next request: at first waiting, then asleep. */
  ghost function Pausing(k: nat): Task {
    Task(k, k, k, if k == 0 then Waiting else Sleeping)
  }

  lemma Requested(maxRetries: nat, from: Pool, i: nat, w: Walk, k: nat) returns (w': Walk)
    requires Leads(maxRetries, from, i, w, Pausing(k))
    ensures Leads(maxRetries, from, i, w', Task(k + 1, k, k, Trying))
  {
    hide Solo;
    assert from.tasks[i := Pausing(k)][i := Task(k + 1, k, k, Trying)] == from.tasks[i := Task(k + 1, k, k, Trying)];
    w' := Moved(maxRetries, from, i, w, Pausing(k), if k == 0 then Start else Wake, Task(k + 1, k, k, Trying));
  }

  lemma CancelledPausing(maxRetries: nat, from: Pool, i: nat, w: Walk, k: nat) returns (w': Walk)
    requires Leads(maxRetries, from, i, w, Pausing(k))
    ensures Leads(maxRetries, from, i, w',
                  Task(k, k, k, Finished(if k == 0 then CancelledAwake else CancelledAsleep)))
  {
    hide Solo;
    var t := Task(k, k, k, Finished(if k == 0 then CancelledAwake else CancelledAsleep));
    assert from.tasks[i := Pausing(k)][i := t] == from.tasks[i := t];
    w' := Moved(maxRetries, from, i, w, Pausing(k), SeeCancel, t);
  }

  /** Its request ends the fetch: with a result, by the token, or for lack of a token of the budget. */
  lemma Ended(maxRetries: nat, from: Pool, i: nat, w: Walk, k: nat, end: End) returns (w': Walk)
    requires Leads(maxRetries, from, i, w, Task(k + 1, k, k, Trying))
    requires end.Success? || end.FatalError? || end.CancelledAwake? || (end.BudgetEmpty? && from.remaining == k)
    ensures Leads(maxRetries, from, i, w', Task(k + 1, k, k, Finished(end)))
  {
    hide Solo;
    var t, t' := Task(k + 1, k, k, Trying), Task(k + 1, k, k, Finished(end));
    assert from.tasks[i := t][i := t'] == from.tasks[i := t'];
    var m := match end
      case Success => Succeed
      case FatalError => FailFatally
      case BudgetEmpty => FailTransiently
      case _ => SeeCancel;
    w' := Moved(maxRetries, from, i, w, t, m, t');
  }

  /** Its request failed transiently and drew a token: the fetch backs off, or its allowance is used up. */
  lemma FailedTransiently(maxRetries: nat, from: Pool, i: nat, w: Walk, k: nat) returns (w': Walk)
    requires Leads(maxRetries, from, i, w, Task(k + 1, k, k, Trying)) && k < from.remaining && k <= maxRetries
    ensures Leads(maxRetries, from, i, w',
                  if k < maxRetries then Pausing(k + 1) else Task(k + 1, k, k + 1, Finished(Exhausted)))
  {
    hide Solo;
    var t, t' := Task(k + 1, k, k, Trying), Task(k + 1, k, k + 1, Granted);
    var t'' := if k < maxRetries then Pausing(k + 1) else Task(k + 1, k, k + 1, Finished(Exhausted));
    assert from.tasks[i := t][i := t'] == from.tasks[i := t'];
    assert from.tasks[i := t'][i := t''] == from.tasks[i := t''];
    w' := Moved(maxRetries, from, i, w, t, FailTransiently, t');
    w' := Moved(maxRetries, from, i, w', t', TakeDelay, t'');
  }

  lemma Concluded(maxRetries: nat, from: Pool, i: nat, w: Walk, t: Task)
    requires Leads(maxRetries, from, i, w, t)
    ensures var p := w.pools[|w.moves|];
      && p.remaining == from.remaining - t.tokens && p.tally == from.tally + t.retries
      && i < |p.tasks| && p.tasks[i] == t
    ensures Solo(maxRetries, from, i, w)
  {
    hide Next;
  }

  /** What the caller gets when a fetch ends so. */
  predicate EndGives<T>(end: End, r: Result<T, Error>) {
    match end
    case Success => r.Ok?
    case FatalError => r.Err? && !IsRetryable(r.error)
    case BudgetEmpty => r.Err? && IsRetryable(r.error)
    case Exhausted => r.Err? && IsRetryable(r.error)
    case CancelledAwake => r == Err(Cancelled)
    case CancelledAsleep => r == Err(Cancelled)
  }

  // ---- One fetch, as the loop it is ------------------------------------------------------------------------

  /** When the cancel token fires, as one fetch sees it. */
  datatype Cancellation = Never | AtOnce | During(attempt: nat) | AsleepAfter(attempt: nat)

  /**
    `with_retry_cancellable`: attempt until success, a fatal error, an exhausted allowance, an empty budget
    or cancellation. `attempt(k)` is what the k-th request comes to.

    The gate is asked before the allowance is, so the last permitted attempt costs a token when it fails
    transiently, though no retry follows. The loop is a walk of its task through the pool of all fetches.
  */
  method WithRetry<T>(maxRetries: nat, budget: FragmentRetryBudget, tally: Tally,
                      attempt: nat -> Result<T, Error>, cancel: Cancellation, ghost pool: Pool, ghost i: nat)
    returns (r: Result<T, Error>, attempts: nat, ghost walk: Walk)
    requires i < |pool.tasks| && pool.tasks[i] == Task(0, 0, 0, Waiting)
    requires pool.remaining == budget.remaining && pool.tally == tally.retries
    modifies budget, tally
    ensures Solo(maxRetries, pool, i, walk)
    ensures var p := walk.pools[|walk.moves|];
      && p.remaining == budget.remaining && p.tally == tally.retries
      && i < |p.tasks| && p.tasks[i].attempts == attempts
      && p.tasks[i].state.Finished? && EndGives(p.tasks[i].state.end, r)
    ensures attempts <= maxRetries + 1
    // A token per retry, and one in vain when the allowance ends on a transient failure.
    ensures var spent := old(budget.remaining) - budget.remaining;
            var retries := tally.retries - old(tally.retries);
            && 0 <= retries <= spent <= retries + 1
            && (spent == retries + 1 ==>
                  retries == maxRetries && attempts == maxRetries + 1 && r.Err? && IsRetryable(r.error))
    ensures cancel.Never? ==>
              && attempts >= 1
              && r == attempt(attempts - 1)
              && tally.retries == old(tally.retries) + attempts - 1
    // It stops at the first success or fatal error; a transient one only when the allowance or budget is gone.
    ensures forall k :: 0 <= k < attempts - 1 ==> attempt(k).Err? && IsRetryable(attempt(k).error)
    ensures cancel.Never? && r.Err? && IsRetryable(r.error) ==>
              attempts == maxRetries + 1 || budget.remaining == 0
    ensures cancel.Never? && r.Err? && !IsRetryable(r.error) ==>
              old(budget.remaining) - budget.remaining == attempts - 1
    // The race covers the requests and the sleeps between them.
    ensures cancel.During? && attempts > cancel.attempt ==> r == Err(Cancelled) && attempts == cancel.attempt + 1
    ensures cancel.AsleepAfter? && tally.retries - old(tally.retries) > cancel.attempt ==>
              r == Err(Cancelled) && attempts == cancel.attempt + 1
    ensures cancel.AtOnce? ==>
              && r == Err(Cancelled) && attempts == 0
              && budget.remaining == old(budget.remaining) && tally.retries == old(tally.retries)
  {
    hide Solo, Next, Leads, At, IsRetryable;
    attempts := 0;
    walk := Unmoved(maxRetries, pool, i);
    if cancel.AtOnce? {
      walk := CancelledPausing(maxRetries, pool, i, walk, 0);
      Concluded(maxRetries, pool, i, walk, Task(0, 0, 0, Finished(CancelledAwake)));
      return Err(Cancelled), attempts, walk;
    }
    var delays := maxRetries;
    while true
      invariant Leads(maxRetries, pool, i, walk, Pausing(attempts))
      invariant attempts <= maxRetries && delays == maxRetries - attempts
      invariant tally.retries == old(tally.retries) + attempts
      invariant budget.remaining == old(budget.remaining) - attempts
      invariant cancel.During? || cancel.AsleepAfter? ==> attempts <= cancel.attempt
      invariant forall k :: 0 <= k < attempts ==> attempt(k).Err? && IsRetryable(attempt(k).error)
      decreases delays
    {
      walk := Requested(maxRetries, pool, i, walk, attempts);
      r := attempt(attempts);
      attempts := attempts + 1;
      if cancel == During(attempts - 1) {
        walk := Ended(maxRetries, pool, i, walk, attempts - 1, CancelledAwake);
        Concluded(maxRetries, pool, i, walk, Task(attempts, attempts - 1, attempts - 1, Finished(CancelledAwake)));
        return Err(Cancelled), attempts, walk;
      }
      if r.Ok? || !IsRetryable(r.error) {
        var end := if r.Ok? then Success else FatalError;
        walk := Ended(maxRetries, pool, i, walk, attempts - 1, end);
        Concluded(maxRetries, pool, i, walk, Task(attempts, attempts - 1, attempts - 1, Finished(end)));
        return r, attempts, walk;
      }
      var granted := budget.TryConsume();
      if !granted {
        walk := Ended(maxRetries, pool, i, walk, attempts - 1, BudgetEmpty);
        Concluded(maxRetries, pool, i, walk, Task(attempts, attempts - 1, attempts - 1, Finished(BudgetEmpty)));
        return r, attempts, walk;
      }
      walk := FailedTransiently(maxRetries, pool, i, walk, attempts - 1);
      if delays == 0 {
        Concluded(maxRetries, pool, i, walk, Task(attempts, attempts - 1, attempts, Finished(Exhausted)));
        return r, attempts, walk;
      }
      delays := delays - 1;
      tally.retries := tally.retries + 1;
      if cancel == AsleepAfter(attempts - 1) {
        walk := CancelledPausing(maxRetries, pool, i, walk, attempts);
        Concluded(maxRetries, pool, i, walk, Task(attempts, attempts, attempts, Finished(CancelledAsleep)));
        return Err(Cancelled), attempts, walk;
      }
    }
  }
}

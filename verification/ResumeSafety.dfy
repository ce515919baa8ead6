/**
  Safety of the fragment downloader over whole histories: what a completed output holds, what is written
  in what order, how many fetches are open, and what a cancellation can still let through.
*/
module ResumeSafety {
  import opened Wrappers
  import opened Fragments
  import opened Crc32
  import opened Revalidate
  import opened ResumeProtocol

  // ---- The window and cancellation: true of every history, in any world ---------------------------------

  /** A slot for entry `i`, holding that entry's bytes once they are there. */
  ghost predicate HoldsPiece(job: Job, slot: Slot, i: nat) {
    && slot.index == i
    && i < job.Total()
    && (slot.state.Fetched? ==> slot.state.body == job.pieces[i])
  }

  /** The slots are those of the entries behind the written ones, in list order, none left out. */
  ghost predicate InOrder(l: Loop) {
    && l.taken == l.done + |l.slots|
    && l.taken <= l.job.Total()
    && forall k :: 0 <= k < |l.slots| ==> HoldsPiece(l.job, l.slots[k], l.done + k)
  }

  ghost predicate WindowInvariant(s: Sys) {
    s.phase.Streaming? ==>
      var l := s.phase.loop;
      && InOrder(l)
      && |l.slots| <= l.job.Window()
      && l.late <= 1
      && (l.late > 0 ==> s.cancel && (l.point.Written? || l.point.Saved?))
      && (l.point.Starting? ==> l.slots == [])
      && (l.point.Written? ==> l.done > 0)
  }

  /** A gated record leaves something to do, in every history. */
  ghost predicate ResumesBelowTotal(s: Sys) {
    && (s.phase.Gated? && s.phase.from.Some? ==> s.phase.from.value.doc.fragmentsDone < s.phase.job.Total())
    && (s.phase.Opened? && s.phase.from.Some? ==> s.phase.from.value.doc.fragmentsDone < s.phase.job.Total())
    && (s.phase.Truncated? ==> s.phase.record.doc.fragmentsDone < s.phase.job.Total())
  }

  lemma StartupKeepsWindow(w: World, s: Sys, e: Event, s': Sys)
    requires ResumesBelowTotal(s) && NextStartup(w, s, e, s')
    ensures WindowInvariant(s') && ResumesBelowTotal(s')
  {
    hide RevalidateAnchor, Checksum, HoldsPiece;
  }

  /** However many fetches are open and whichever finishes next, its bytes land in its own entry's slot. */
  lemma ResolveKeepsOrder(l: Loop, i: nat, state: FetchState)
    requires InOrder(l) && i < |l.slots|
    requires state.Failed? || state == Fetched(l.job.pieces[l.slots[i].index])
    ensures InOrder(l.(slots := l.slots[i := l.slots[i].(state := state)]))
  {
    assert HoldsPiece(l.job, l.slots[i], l.done + i);
  }

  lemma SlotIsInOrder(l: Loop, i: nat)
    requires InOrder(l) && i < |l.slots|
    ensures l.slots[i].index == l.done + i < l.job.Total()
  {
    assert HoldsPiece(l.job, l.slots[i], l.done + i);
  }

  lemma SpawnKeepsOrder(l: Loop)
    requires InOrder(l) && l.taken < l.job.Total()
    ensures InOrder(l.(taken := l.taken + 1, slots := l.slots + [Slot(l.taken, InFlight)]))
  {
  }

  lemma WriteKeepsOrder(l: Loop, cancelled: bool)
    requires InOrder(l) && l.slots != [] && l.slots[0].state.Fetched?
    ensures l.done < l.job.Total() && l.slots[0].state.body == l.job.pieces[l.done]
    ensures InOrder(l.Written(l.slots[0].state.body, cancelled))
  {
    assert HoldsPiece(l.job, l.slots[0], l.done + 0);
    var l' := l.Written(l.slots[0].state.body, cancelled);
    forall k | 0 <= k < |l'.slots| ensures HoldsPiece(l'.job, l'.slots[k], l'.done + k) {
      assert HoldsPiece(l.job, l.slots[k + 1], l.done + (k + 1));
    }
  }

  lemma LoopKeepsWindow(s: Sys, e: Event, s': Sys)
    requires s.phase.Streaming? && WindowInvariant(s) && NextLoop(s, e, s')
    ensures WindowInvariant(s') && ResumesBelowTotal(s')
  {
    hide Update, FromHeaders, HoldsPiece;
    var l := s.phase.loop;
    match e
    case Resolve(i, outcome) =>
      SlotIsInOrder(l, i);
      ResolveKeepsOrder(l, i, if outcome == Body then Fetched(l.job.pieces[l.slots[i].index])
                              else Failed(outcome == SawCancel));
    case Spawn => SpawnKeepsOrder(l);
    case Write => WriteKeepsOrder(l, s.cancel);
    case _ =>
  }

  lemma NextKeepsWindow(w: World, s: Sys, e: Event, s': Sys)
    requires WindowInvariant(s) && ResumesBelowTotal(s) && Next(w, s, e, s')
    ensures WindowInvariant(s') && ResumesBelowTotal(s')
  {
    hide NextStartup, NextLoop, InOrder;
    if NextStartup(w, s, e, s') {
      StartupKeepsWindow(w, s, e, s');
    } else if s.phase.Streaming? && NextLoop(s, e, s') {
      LoopKeepsWindow(s, e, s');
    }
  }

  lemma InitInWindow(s: Sys)
    requires ResumeProtocol.Init(s)
    ensures WindowInvariant(s) && ResumesBelowTotal(s)
  {
  }

  lemma {:induction false} WindowInvariantHolds(w: World, states: seq<Sys>, events: seq<Event>, n: nat)
    requires History(w, states, events) && n < |states|
    ensures WindowInvariant(states[n]) && ResumesBelowTotal(states[n])
  {
    hide Next, WindowInvariant, ResumesBelowTotal;
    if n == 0 {
      InitInWindow(states[0]);
    } else {
      WindowInvariantHolds(w, states, events, n - 1);
      NextKeepsWindow(w, states[n - 1], events[n - 1], states[n]);
    }
  }

  /**
    In whatever order the fetches finish, slot k of the window is the fetch of entry `done + k` and, once
    finished, holds that entry's bytes. So the next write is always of the next entry.
  */
  lemma SlotsHoldTheirEntries(w: World, states: seq<Sys>, events: seq<Event>, n: nat, k: nat)
    requires History(w, states, events) && n < |states| && states[n].phase.Streaming?
    requires k < |states[n].phase.loop.slots|
    ensures var l := states[n].phase.loop;
      && l.done + k < l.job.Total()
      && l.slots[k].index == l.done + k
      && (l.slots[k].state.Fetched? ==> l.slots[k].state.body == l.job.pieces[l.done + k])
  {
    WindowInvariantHolds(w, states, events, n);
    var l := states[n].phase.loop;
    assert HoldsPiece(l.job, l.slots[k], l.done + k);
  }

  /** The stream of fetches ends only when every entry of the list has been written. */
  lemma EndOfStreamIsEndOfList(w: World, states: seq<Sys>, events: seq<Event>, n: nat)
    requires History(w, states, events) && n < |events| && events[n].Finish?
    ensures states[n].phase.Streaming? && states[n].phase.loop.done == states[n].phase.loop.job.Total()
  {
    WindowInvariantHolds(w, states, events, n);
    assert Next(w, states[n], events[n], states[n + 1]);
  }

  /** Fetches in progress. */
  function CountInFlight(slots: seq<Slot>): (n: nat)
    ensures n <= |slots|
  {
    if slots == [] then 0 else (if slots[0].state.InFlight? then 1 else 0) + CountInFlight(slots[1..])
  }

  /** At most `concurrency` fetches (one, if configured as zero) are ever open, whatever their order. */
  lemma FetchesAreBounded(w: World, states: seq<Sys>, events: seq<Event>, n: nat)
    requires History(w, states, events) && n < |states| && states[n].phase.Streaming?
    ensures var l := states[n].phase.loop;
      CountInFlight(l.slots) <= if l.job.concurrency == 0 then 1 else l.job.concurrency
  {
    WindowInvariantHolds(w, states, events, n);
  }

  /** The number of fragments written in steps `a` to `b` of a history. */
  function WritesBetween(events: seq<Event>, a: nat, b: nat): nat
    requires a <= b <= |events|
    decreases b
  {
    if a == b then 0 else WritesBetween(events, a, b - 1) + (if events[b - 1].Write? then 1 else 0)
  }

  lemma LateCountsOne(w: World, s: Sys, e: Event, s': Sys)
    requires Next(w, s, e, s') && s.phase.Streaming? && s'.phase.Streaming? && s.cancel
    ensures s'.phase.loop.late == s.phase.loop.late + (if e.Write? then 1 else 0)
  {
    assert !NextStartup(w, s, e, s');
  }

  /** Streaming under a fired token throughout steps `a` to `b`, each step counting its own write. */
  ghost predicate CountsLate(states: seq<Sys>, events: seq<Event>, a: nat, b: nat) {
    && |states| == |events| + 1
    && a <= b < |states|
    && (forall i :: a <= i <= b ==> states[i].phase.Streaming?)
    && (forall i :: a <= i < b ==>
          states[i + 1].phase.loop.late == states[i].phase.loop.late + (if events[i].Write? then 1 else 0))
  }

  lemma {:induction false} LateCountsWrites(states: seq<Sys>, events: seq<Event>, a: nat, b: nat)
    requires CountsLate(states, events, a, b)
    ensures states[b].phase.loop.late == states[a].phase.loop.late + WritesBetween(events, a, b)
    decreases b
  {
    if a < b {
      LateCountsWrites(states, events, a, b - 1);
      assert states[b - 1 + 1] == states[b];
    }
  }

  /** Once the token has fired, at most one more fragment reaches the output before the run returns. */
  lemma AtMostOneFragmentAfterCancel(w: World, states: seq<Sys>, events: seq<Event>, a: nat, b: nat)
    requires History(w, states, events) && a <= b < |states|
    requires forall i :: a <= i <= b ==> states[i].phase.Streaming? && states[i].cancel
    ensures WritesBetween(events, a, b) <= 1
    ensures forall i, j :: a <= i < j < b ==> !(events[i].Write? && events[j].Write?)
  {
    forall i | a <= i < b
      ensures states[i + 1].phase.loop.late == states[i].phase.loop.late + (if events[i].Write? then 1 else 0)
    {
      LateCountsOne(w, states[i], events[i], states[i + 1]);
    }
    LateCountsWrites(states, events, a, b);
    WindowInvariantHolds(w, states, events, b);
    forall i, j | a <= i < j < b ensures !(events[i].Write? && events[j].Write?) {
      TwoWritesCountTwo(events, a, i, j, b);
    }
  }

  lemma {:induction false} WritesAdd(events: seq<Event>, a: nat, m: nat, b: nat)
    requires a <= m <= b <= |events|
    ensures WritesBetween(events, a, b) == WritesBetween(events, a, m) + WritesBetween(events, m, b)
    decreases b
  {
    if m < b {
      WritesAdd(events, a, m, b - 1);
    }
  }

  lemma TwoWritesCountTwo(events: seq<Event>, a: nat, i: nat, j: nat, b: nat)
    requires a <= i < j < b <= |events|
    ensures events[i].Write? && events[j].Write? ==> WritesBetween(events, a, b) >= 2
  {
    WritesAdd(events, a, i + 1, b);
    WritesAdd(events, i + 1, j + 1, b);
  }

  // ---- Which origins the output can be trusted against --------------------------------------------------

  /** The gates cannot tell the two jobs' lists apart. */
  predicate SameList(o: Job, j: Job) {
    o.fingerprint == j.fingerprint && o.Total() == j.Total()
  }

  /** Whatever a run of `o` can leave to be resumed is also a prefix of the stream of `j`. */
  ghost predicate SamePrefixes(o: Job, j: Job)
    requires SameList(o, j)
  {
    forall k :: 1 <= k < o.Total() && Stream(o.pieces, k) != [] ==> Stream(o.pieces, k) == Stream(j.pieces, k)
  }

  /** `o` offers a validator that no answer given for `j` confirms. */
  ghost predicate Discriminates(w: World, o: Job, j: Job) {
    && FromHeaders(o.headers).Some?
    && forall p :: (j.headers, FromHeaders(o.headers).value, p) in w.answers
                   ==> RevalidateAnchor(FromHeaders(o.headers).value, p) != Ok(Confirmed)
  }

  /** Any two jobs of one list either agree on what can be resumed or are told apart by the probe. */
  ghost predicate Identifiable(w: World) {
    forall o, j :: o in w.jobs && j in w.jobs && SameList(o, j) ==> SamePrefixes(o, j) || Discriminates(w, o, j)
  }

  /** Jobs that share a fingerprint and a length stand for the same bytes: the origin never changes. */
  ghost predicate UnchangedOrigin(w: World) {
    forall j1, j2 :: j1 in w.jobs && j2 in w.jobs && SameList(j1, j2) ==> j1.pieces == j2.pieces
  }

  /**
    The origin may change, but fragment 0 always offers a validator, answers to the probe are truthful, and
    a validator one state of the origin offered names another state of the same list only if their bytes
    are the same.
  */
  ghost predicate StrongAnchors(w: World) {
    && (forall j :: j in w.jobs ==> FromHeaders(j.headers).Some?)
    && (forall h, v, p :: (h, v, p) in w.answers ==> Truthful(h, v, p))
    && (forall j1, j2 ::
          && j1 in w.jobs && j2 in w.jobs && SameList(j1, j2)
          && Names(FromHeaders(j1.headers).value, j2.headers)
          ==> j1.pieces == j2.pieces)
  }

  lemma UnchangedIsIdentifiable(w: World)
    requires UnchangedOrigin(w)
    ensures Identifiable(w)
  {
    hide Discriminates;
  }

  lemma StrongAnchorsDiscriminate(w: World, o: Job, j: Job)
    requires StrongAnchors(w) && o in w.jobs && j in w.jobs && SameList(o, j) && o.pieces != j.pieces
    ensures Discriminates(w, o, j)
  {
    hide RevalidateAnchor, Truthful;
    var v := FromHeaders(o.headers).value;
    assert !Names(v, j.headers);
    forall p | (j.headers, v, p) in w.answers ensures RevalidateAnchor(v, p) != Ok(Confirmed) {
      if RevalidateAnchor(v, p) == Ok(Confirmed) {
        ConfirmedNamesCurrent(v, j.headers, p);
      }
    }
  }

  lemma StrongIsIdentifiable(w: World)
    requires StrongAnchors(w)
    ensures Identifiable(w)
  {
    hide Discriminates, StrongAnchors;
    forall o, j | o in w.jobs && j in w.jobs && SameList(o, j) ensures SamePrefixes(o, j) || Discriminates(w, o, j) {
      if o.pieces != j.pieces {
        StrongAnchorsDiscriminate(w, o, j);
      }
    }
  }

  /**
    `o` is a job that could have recorded `anchor` for the first `k` pieces of `job`: it stands for the same
    bytes, or its resumable prefixes are those of `job` and the first `k` are one of them.
  */
  ghost predicate Source(o: Job, anchor: Option<Validator>, job: Job, k: nat) {
    && SameList(o, job)
    && FromHeaders(o.headers) == anchor
    && k <= o.Total()
    && (o.pieces == job.pieces || (SamePrefixes(o, job) && Stream(o.pieces, k) != []))
  }

  ghost predicate Sourced(w: World, anchor: Option<Validator>, job: Job, k: nat) {
    exists o :: o in w.jobs && Source(o, anchor, job, k)
  }

  // ---- The invariant --------------------------------------------------------------------------------------

  /** What a sidecar claims about the stream of the job that saved it. */
  ghost predicate Honest(w: World, r: Record) {
    && r.job in w.jobs
    && r.doc.fingerprint == r.job.fingerprint
    && r.doc.totalFragments == r.job.Total()
    && 1 <= r.doc.fragmentsDone <= r.job.Total()
    && r.doc.byteLen == |Stream(r.job.pieces, r.doc.fragmentsDone)|
    && r.doc.streamCrc == Checksum(Stream(r.job.pieces, r.doc.fragmentsDone))
    && Sourced(w, r.doc.anchor, r.job, r.doc.fragmentsDone)
  }

  /** The output is exactly the first `done` pieces and the run's counters describe it. */
  ghost predicate OnStream(w: World, output: Bytes, l: Loop) {
    && l.job in w.jobs
    && l.done <= l.job.Total()
    && output == Stream(l.job.pieces, l.done)
    && l.totalBytes == |output|
    && l.hasher == Checksum(output)
    && (l.done > 0 ==> Sourced(w, l.anchor, l.job, l.done))
  }

  ghost predicate CanResume(w: World, s: Sys, job: Job, r: Record) {
    && job in w.jobs
    && r in s.saved
    && Matches(r.doc, job)
    && r.doc.fragmentsDone < job.Total()
  }

  /** The prefix the record was saved over is a prefix of the stream of `job`, and its anchor stands for it. */
  ghost predicate Carries(w: World, r: Record, job: Job) {
    && r.doc.fragmentsDone <= r.job.Total()
    && r.doc.fragmentsDone <= job.Total()
    && Stream(r.job.pieces, r.doc.fragmentsDone) == Stream(job.pieces, r.doc.fragmentsDone)
    && Sourced(w, r.doc.anchor, job, r.doc.fragmentsDone)
  }

  ghost predicate PhaseInvariant(w: World, s: Sys) {
    match s.phase
    case Idle(Completed(job)) => s.disk.output == Stream(job.pieces, job.Total())
    case Idle(_) => true
    case Gated(job, from) => job in w.jobs && (from.Some? ==> CanResume(w, s, job, from.value))
    case Opened(job, from) =>
      job in w.jobs && (from.Some? ==> CanResume(w, s, job, from.value) && Carries(w, from.value, job))
    case Truncated(job, r) =>
      CanResume(w, s, job, r) && Carries(w, r, job) && |s.disk.output| == r.doc.byteLen
    case Streaming(l) => OnStream(w, s.disk.output, l)
  }

  ghost predicate Invariant(w: World, s: Sys) {
    && (forall r :: r in s.saved ==> Honest(w, r))
    && (s.disk.record.Some? ==> s.disk.record.value in s.saved)
    && PhaseInvariant(w, s)
  }

  /** Below the end of the list, a source has written what the job it stands for would have. */
  lemma SourceWroteTheSame(o: Job, anchor: Option<Validator>, job: Job, k: nat)
    requires Source(o, anchor, job, k) && 1 <= k < job.Total()
    ensures Stream(o.pieces, k) == Stream(job.pieces, k)
  {
  }

  /** The probe, where there was an anchor to ask about, did not refute it. */
  ghost predicate NotRefuted(w: World, anchor: Option<Validator>, job: Job) {
    anchor.Some? ==>
      exists p :: (job.headers, anchor.value, p) in w.answers && RevalidateAnchor(anchor.value, p) == Ok(Confirmed)
  }

  lemma RefutedIfDiscriminated(w: World, o: Job, job: Job)
    requires Discriminates(w, o, job)
    ensures !NotRefuted(w, FromHeaders(o.headers), job)
  {
    hide RevalidateAnchor, FromHeaders;
  }

  /** In an identifiable world a record that is not refuted can be carried over. */
  lemma UnrefutedCarries(w: World, s: Sys, job: Job, r: Record)
    requires Identifiable(w) && CanResume(w, s, job, r) && Honest(w, r)
    requires NotRefuted(w, r.doc.anchor, job)
    ensures Carries(w, r, job)
  {
    hide Discriminates, NotRefuted, Checksum, FromHeaders;
    var k := r.doc.fragmentsDone;
    var o :| o in w.jobs && Source(o, r.doc.anchor, r.job, k);
    SourceWroteTheSame(o, r.doc.anchor, r.job, k);
    assert Stream(o.pieces, k) != [];
    assert SameList(o, job);
    if Discriminates(w, o, job) {
      RefutedIfDiscriminated(w, o, job);
    }
    assert SamePrefixes(o, job);
    assert Source(o, r.doc.anchor, job, k);
  }

  lemma ProbePreserves(w: World, s: Sys, p: Probe, s': Sys)
    requires Identifiable(w) && Invariant(w, s) && NextStartup(w, s, AnswerProbe(p), s')
    ensures Invariant(w, s')
  {
    hide Identifiable, Carries, RevalidateAnchor, Checksum, Stream;
    var r := s.phase.from.value;
    assert Honest(w, r);
    if RevalidateAnchor(r.doc.anchor.value, p) == Ok(Confirmed) {
      UnrefutedCarries(w, s, s.phase.job, r);
    }
  }

  /** What passes the checksum comparison, short of a collision, is the prefix the sidecar was saved over. */
  lemma ChecksumPreserves(w: World, s: Sys, s': Sys)
    requires Invariant(w, s) && NextStartup(w, s, CompareChecksum, s')
    requires !CollisionAt(s, CompareChecksum)
    ensures Invariant(w, s')
  {
    hide Checksum, Stream, Sourced, FromHeaders;
    assert Honest(w, s.phase.record);
  }

  lemma SkipPreserves(w: World, s: Sys, s': Sys)
    requires Identifiable(w) && Invariant(w, s) && NextStartup(w, s, SkipProbe, s')
    ensures Invariant(w, s')
  {
    hide Identifiable, Carries, Checksum, Stream;
    if s.phase.from.Some? {
      assert Honest(w, s.phase.from.value);
      UnrefutedCarries(w, s, s.phase.job, s.phase.from.value);
    }
  }

  lemma OtherStartupPreserves(w: World, s: Sys, e: Event, s': Sys)
    requires !e.AnswerProbe? && !e.CompareChecksum? && !e.SkipProbe?
    requires Invariant(w, s) && NextStartup(w, s, e, s')
    ensures Invariant(w, s')
  {
    hide Honest, Carries, RevalidateAnchor;
  }

  lemma StartupPreserves(w: World, s: Sys, e: Event, s': Sys)
    requires Identifiable(w) && Invariant(w, s) && NextStartup(w, s, e, s') && !CollisionAt(s, e)
    ensures Invariant(w, s')
  {
    hide CollisionAt, NextStartup, Invariant, Identifiable;
    match e
    case AnswerProbe(p) => ProbePreserves(w, s, p, s');
    case CompareChecksum => ChecksumPreserves(w, s, s');
    case SkipProbe => SkipPreserves(w, s, s');
    case _ => OtherStartupPreserves(w, s, e, s');
  }

  /** Writing on keeps the source. */
  lemma SourceGrows(w: World, anchor: Option<Validator>, job: Job, k: nat)
    requires Sourced(w, anchor, job, k) && k < job.Total()
    ensures Sourced(w, anchor, job, k + 1)
  {
    hide FromHeaders, SamePrefixes;
    var o :| o in w.jobs && Source(o, anchor, job, k);
    assert Stream(o.pieces, k + 1) == Stream(o.pieces, k) + o.pieces[k];
    assert Source(o, anchor, job, k + 1);
  }

  /** The first fragment's own validator stands for its job. */
  lemma OwnSource(w: World, job: Job, k: nat)
    requires job in w.jobs && k <= job.Total()
    ensures Sourced(w, FromHeaders(job.headers), job, k)
  {
    assert Source(job, FromHeaders(job.headers), job, k);
  }

  lemma WritePreserves(w: World, output: Bytes, l: Loop, cancelled: bool)
    requires OnStream(w, output, l) && InOrder(l) && l.slots != [] && l.slots[0].state.Fetched?
    ensures OnStream(w, output + l.slots[0].state.body, l.Written(l.slots[0].state.body, cancelled))
  {
    hide Sourced, FromHeaders, InOrder;
    var body := l.slots[0].state.body;
    WriteKeepsOrder(l, cancelled);
    assert Stream(l.job.pieces, l.done + 1) == Stream(l.job.pieces, l.done) + body;
    UpdateConcat(0, output, body);
    if l.done == 0 {
      OwnSource(w, l.job, 1);
    } else {
      SourceGrows(w, l.anchor, l.job, l.done);
    }
  }

  lemma LoopPreserves(w: World, s: Sys, e: Event, s': Sys)
    requires Invariant(w, s) && s.phase.Streaming? && WindowInvariant(s) && NextLoop(s, e, s')
    ensures Invariant(w, s')
  {
    hide Checksum, Stream, Update, FromHeaders, Sourced, HoldsPiece;
    var l := s.phase.loop;
    match e
    case Write => WritePreserves(w, s.disk.output, l, s.cancel);
    case Save(ok) => assert Honest(w, Record(l.Doc(), l.job));
    case _ =>
  }

  lemma NextPreserves(w: World, s: Sys, e: Event, s': Sys)
    requires Identifiable(w) && Invariant(w, s) && WindowInvariant(s)
    requires Next(w, s, e, s') && !CollisionAt(s, e)
    ensures Invariant(w, s')
  {
    if NextStartup(w, s, e, s') {
      StartupPreserves(w, s, e, s');
    } else if s.phase.Streaming? && NextLoop(s, e, s') {
      LoopPreserves(w, s, e, s');
    } else if s.phase.Streaming? && s.phase.loop.point.Written? {
      assert Honest(w, Record(s.phase.loop.Doc(), s.phase.loop.job));
    }
  }

  lemma InitInvariant(w: World, s: Sys)
    requires ResumeProtocol.Init(s)
    ensures Invariant(w, s)
  {
  }

  lemma {:induction false} InvariantHolds(w: World, states: seq<Sys>, events: seq<Event>, n: nat)
    requires Identifiable(w) && History(w, states, events) && n < |states|
    requires !Collided(states, events, n)
    ensures Invariant(w, states[n])
  {
    hide Next, Invariant, WindowInvariant, CollisionAt, Identifiable;
    if n == 0 {
      InitInvariant(w, states[0]);
    } else {
      InvariantHolds(w, states, events, n - 1);
      WindowInvariantHolds(w, states, events, n - 1);
      NextPreserves(w, states[n - 1], events[n - 1], states[n]);
    }
  }

  // ---- The theorems ---------------------------------------------------------------------------------------

  /**
    After any history of runs, cancellations, faults and crashes in an identifiable world, a run that returns
    success leaves the uninterrupted concatenation of the representation it was served from, unless on the
    way two different byte strings of one length were compared that have the same checksum.
  */
  lemma CompletedOutputIsWhole(w: World, states: seq<Sys>, events: seq<Event>, n: nat, job: Job)
    requires Identifiable(w) && History(w, states, events) && n < |states|
    requires states[n].phase == Idle(Completed(job))
    ensures states[n].disk.output == Stream(job.pieces, job.Total()) || Collided(states, events, n)
  {
    hide Identifiable, Collided, History;
    if !Collided(states, events, n) {
      InvariantHolds(w, states, events, n);
    }
  }

  /** In particular against an unchanged origin. */
  lemma CompletedOutputIsTheStream(w: World, states: seq<Sys>, events: seq<Event>, n: nat, job: Job)
    requires UnchangedOrigin(w) && History(w, states, events) && n < |states|
    requires states[n].phase == Idle(Completed(job))
    ensures states[n].disk.output == Stream(job.pieces, job.Total()) || Collided(states, events, n)
  {
    hide UnchangedOrigin, Identifiable, Collided, History;
    UnchangedIsIdentifiable(w);
    CompletedOutputIsWhole(w, states, events, n, job);
  }

  /**
    And when the origin changes between runs, back and forth, but its validators tell its states apart;
    stale sidecars never splice in another representation.
  */
  lemma CompletedOutputIsOneRepresentation(w: World, states: seq<Sys>, events: seq<Event>, n: nat, job: Job)
    requires StrongAnchors(w) && History(w, states, events) && n < |states|
    requires states[n].phase == Idle(Completed(job))
    ensures states[n].disk.output == Stream(job.pieces, job.Total()) || Collided(states, events, n)
  {
    hide StrongAnchors, Identifiable, Collided, History;
    StrongIsIdentifiable(w);
    CompletedOutputIsWhole(w, states, events, n, job);
  }

  /**
    In whatever order the fetches finish, what is on disk while a run writes is the first `done` pieces
    in list order, and the sidecar it would save says so.
  */
  lemma WritesFollowTheList(w: World, states: seq<Sys>, events: seq<Event>, n: nat)
    requires Identifiable(w) && History(w, states, events) && n < |states|
    requires states[n].phase.Streaming? && !Collided(states, events, n)
    ensures var l := states[n].phase.loop;
            && l.done <= l.job.Total()
            && states[n].disk.output == Stream(l.job.pieces, l.done)
            && l.Doc() == Sidecar(l.job.fingerprint, l.job.Total(), l.done, |states[n].disk.output|,
                                  Checksum(states[n].disk.output), l.anchor)
  {
    InvariantHolds(w, states, events, n);
  }
}

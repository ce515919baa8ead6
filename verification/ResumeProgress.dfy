/**
  What a run that neither crashes nor completes leaves for the next one: it never takes back fragments its
  own gates confirmed, with two exceptions that are characterised exactly.
*/
module ResumeProgress {
  import opened Wrappers
  import opened Crc32
  import opened Revalidate
  import opened ResumeProtocol
  import opened ResumeSafety

  /** The fragments the next run of `job` would keep, its anchor being confirmed. */
  function Resumable(d: Disk, job: Job): nat {
    var from := Gate(d, job);
    if from.Some? && Checksum(d.output[..from.value.doc.byteLen]) == from.value.doc.streamCrc
    then from.value.doc.fragmentsDone else 0
  }

  /** Steps `a` to `b` of a history are one whole run of `job`. */
  ghost predicate Run(w: World, states: seq<Sys>, events: seq<Event>, a: nat, b: nat, job: Job) {
    && History(w, states, events)
    && a < b < |states|
    && states[a].phase.Idle? && events[a] == Begin(job)
    && (forall i :: a < i < b ==> !states[i].phase.Idle?)
    && states[b].phase.Idle?
  }

  /** The run goes on, or returns an error of whatever kind; only crashes and success are other ends. */
  predicate StopsShort(e: Event) {
    !e.Crash? && !e.Finish?
  }

  /** The probe found another representation, so the run confirmed nothing. */
  predicate Refutes(e: Event, s': Sys) {
    e.AnswerProbe? && s'.phase.Opened? && s'.phase.from.None?
  }

  ghost predicate StoppedRun(w: World, states: seq<Sys>, events: seq<Event>, a: nat, b: nat, job: Job) {
    && Run(w, states, events, a, b, job)
    && (forall i :: a <= i < b ==> StopsShort(events[i]))
    && (forall i :: a <= i < b ==> !Refutes(events[i], states[i + 1]))
  }

  /** The sidecar on disk matches `job` and counts at least `c` fragments. */
  predicate Recorded(d: Disk, job: Job, c: nat) {
    && d.record.Some?
    && var doc := d.record.value.doc;
    && Matches(doc, job)
    && 0 < c <= doc.fragmentsDone <= job.Total()
    && 0 < doc.byteLen
  }

  /** The output holds at its front bytes of the recorded length and checksum. */
  predicate Fits(doc: Sidecar, output: Bytes) {
    doc.byteLen <= |output| && Checksum(output[..doc.byteLen]) == doc.streamCrc
  }

  predicate Backed(d: Disk, job: Job, c: nat) {
    Recorded(d, job, c) && Fits(d.record.value.doc, d.output)
  }

  /** An error of the output file, reported or ignored, leaves bytes behind that the sidecar does not fit. */
  predicate Damages(d: Disk, e: Event) {
    && d.record.Some?
    && LeftByFault(e).Some?
    && !Fits(d.record.value.doc, LeftByFault(e).value)
  }

  /** A torn write or a failed flush that leaves the saved prefix in place does no damage, whatever follows it. */
  lemma FaultBehindThePrefixIsHarmless(d: Disk, job: Job, c: nat, e: Event)
    requires Backed(d, job, c)
    requires LeftByFault(e).Some? ==> d.output[..d.record.value.doc.byteLen] <= LeftByFault(e).value
    ensures !Damages(d, e)
  {
    if LeftByFault(e).Some? {
      var n := d.record.value.doc.byteLen;
      assert LeftByFault(e).value[..n] == d.output[..n];
    }
  }

  predicate Counting(l: Loop, output: Bytes) {
    l.totalBytes == |output| && l.hasher == Checksum(output)
  }

  /** Where a run that began on disk `d0` with `Resumable(d0, job) > 0` can be. */
  predicate Keeps(d0: Disk, job: Job, s: Sys)
    requires Resumable(d0, job) > 0
  {
    var r := Gate(d0, job).value;
    match s.phase
    case Gated(j, from) => j == job && from == Some(r) && s.disk == d0
    case Opened(j, from) => j == job && from == Some(r) && s.disk == d0
    case Truncated(j, r') => j == job && r' == r && s.disk == Disk(d0.output[..r.doc.byteLen], d0.record)
    case Streaming(l) =>
      && l.job == job
      && Counting(l, s.disk.output)
      && Backed(s.disk, job, r.doc.fragmentsDone)
      && s.disk.record.value.doc.fragmentsDone <= l.done
      && (l.point.Starting? ==> l.done < job.Total())
    case Idle(_) => Recorded(s.disk, job, r.doc.fragmentsDone)
  }

  lemma StartupKeeps(w: World, d0: Disk, job: Job, s: Sys, e: Event, s': Sys)
    requires Resumable(d0, job) > 0 && Keeps(d0, job, s) && !s.phase.Idle?
    requires NextStartup(w, s, e, s') && !Refutes(e, s')
    ensures Keeps(d0, job, s')
  {
    var r := Gate(d0, job).value;
    assert d0.output[..r.doc.byteLen][..r.doc.byteLen] == d0.output[..r.doc.byteLen];
  }

  lemma WriteKeeps(d0: Disk, job: Job, s: Sys, s': Sys)
    requires Resumable(d0, job) > 0 && Keeps(d0, job, s) && s.phase.Streaming?
    requires WindowInvariant(s) && NextLoop(s, Write, s')
    ensures Keeps(d0, job, s')
  {
    var l := s.phase.loop;
    var body := l.slots[0].state.body;
    WriteKeepsOrder(l, s.cancel);
    UpdateConcat(0, s.disk.output, body);
    var n := s.disk.record.value.doc.byteLen;
    assert (s.disk.output + body)[..n] == s.disk.output[..n];
  }

  lemma SaveKeeps(d0: Disk, job: Job, s: Sys, ok: bool, s': Sys)
    requires Resumable(d0, job) > 0 && Keeps(d0, job, s) && s.phase.Streaming?
    requires WindowInvariant(s) && NextLoop(s, Save(ok), s')
    ensures Keeps(d0, job, s')
  {
    assert s.disk.output[..|s.disk.output|] == s.disk.output;
  }

  lemma LoopKeeps(d0: Disk, job: Job, s: Sys, e: Event, s': Sys)
    requires Resumable(d0, job) > 0 && Keeps(d0, job, s) && s.phase.Streaming?
    requires WindowInvariant(s) && NextLoop(s, e, s') && StopsShort(e)
    ensures Keeps(d0, job, s')
  {
    match e
    case Write => WriteKeeps(d0, job, s, s');
    case Save(ok) => SaveKeeps(d0, job, s, ok, s');
    case _ =>
  }

  lemma NextKeeps(w: World, d0: Disk, job: Job, s: Sys, e: Event, s': Sys)
    requires Resumable(d0, job) > 0 && Keeps(d0, job, s) && !s.phase.Idle? && WindowInvariant(s)
    requires Next(w, s, e, s') && StopsShort(e) && !Refutes(e, s')
    ensures Keeps(d0, job, s')
  {
    if NextStartup(w, s, e, s') {
      StartupKeeps(w, d0, job, s, e, s');
    } else if s.phase.Streaming? && NextLoop(s, e, s') {
      LoopKeeps(d0, job, s, e, s');
    }
  }

  lemma BeginKeeps(w: World, s: Sys, job: Job, s': Sys)
    requires Resumable(s.disk, job) > 0 && s.phase.Idle?
    requires Next(w, s, Begin(job), s')
    ensures Keeps(s.disk, job, s')
  {
  }

  lemma {:induction false} KeepsToTheEnd(d0: Disk, job: Job, states: seq<Sys>, a: nat, n: nat)
    requires a < n < |states| && Resumable(d0, job) > 0
    requires Keeps(d0, job, states[a + 1])
    requires forall i :: a < i < n && Keeps(d0, job, states[i]) ==> Keeps(d0, job, states[i + 1])
    ensures Keeps(d0, job, states[n])
    decreases n
  {
    if n > a + 1 {
      KeepsToTheEnd(d0, job, states, a, n - 1);
      assert states[n - 1 + 1] == states[n];
    }
  }

  /** At every step of the run, what its gates confirmed is still there. */
  lemma RunKeeps(w: World, states: seq<Sys>, events: seq<Event>, a: nat, n: nat, b: nat, job: Job)
    requires StoppedRun(w, states, events, a, b, job) && a < n <= b
    requires Resumable(states[a].disk, job) > 0
    ensures Keeps(states[a].disk, job, states[n])
  {
    var d0 := states[a].disk;
    BeginKeeps(w, states[a], job, states[a + 1]);
    forall i | a < i < n && Keeps(d0, job, states[i]) ensures Keeps(d0, job, states[i + 1]) {
      WindowInvariantHolds(w, states, events, i);
      NextKeeps(w, d0, job, states[i], events[i], states[i + 1]);
    }
    KeepsToTheEnd(d0, job, states, a, n);
  }

  /** Nothing is left to fetch: the sidecar counts every fragment. */
  predicate CountsAll(d: Disk, job: Job) {
    d.record.Some? && d.record.value.doc.fragmentsDone == job.Total()
  }

  /** Until it returns, a run keeps the prefix its gates confirmed. */
  lemma UnfinishedIsBacked(d0: Disk, job: Job, s: Sys)
    requires Resumable(d0, job) > 0 && Keeps(d0, job, s) && !s.phase.Idle?
    ensures Backed(s.disk, job, Resumable(d0, job))
  {
    var n := Gate(d0, job).value.doc.byteLen;
    assert d0.output[..n][..n] == d0.output[..n];
  }

  /** What a step that ends the run does to the disk, unless it saves or truncates. */
  lemma LastStepOnDisk(w: World, s: Sys, e: Event, s': Sys)
    requires Next(w, s, e, s') && StopsShort(e) && !s.phase.Idle? && s'.phase.Idle?
    ensures s'.disk.record == s.disk.record
    ensures s'.disk.output == if LeftByFault(e).Some? then LeftByFault(e).value else s.disk.output
  {
    hide RevalidateAnchor, Checksum, Gate, Update, FromHeaders;
  }

  /** What a recorded prefix is worth to the next run. */
  lemma RecordedIsResumable(d: Disk, job: Job, c: nat)
    requires Recorded(d, job, c)
    ensures Resumable(d, job) ==
            if CountsAll(d, job) || !Fits(d.record.value.doc, d.output) then 0 else d.record.value.doc.fragmentsDone
  {
    hide Checksum;
  }

  /**
    A run ended by an error of any kind or by a cancellation, with any of its sidecar saves failing, keeps
    what its gates confirmed, unless it leaves a sidecar that counts every fragment (the completeness gate
    refuses it) or its last step was an error of the output file that damaged the recorded prefix. In both
    cases the next run starts from nothing.
  */
  lemma StoppedRunKeepsProgress(w: World, states: seq<Sys>, events: seq<Event>, a: nat, b: nat, job: Job)
    requires StoppedRun(w, states, events, a, b, job)
    requires Resumable(states[a].disk, job) > 0
    ensures Resumable(states[b].disk, job) >= Resumable(states[a].disk, job)
       <==> !CountsAll(states[b].disk, job) && !Damages(states[b - 1].disk, events[b - 1])
    ensures CountsAll(states[b].disk, job) || Damages(states[b - 1].disk, events[b - 1])
       ==> Resumable(states[b].disk, job) == 0
  {
    hide Next, Keeps, Resumable, CountsAll, WindowInvariant, Fits, Matches;
    RunKeeps(w, states, events, a, b, b, job);
    RunIsSeveralSteps(w, states, events, a, b, job);
    StepOf(w, states, events, a, b - 1, b, job);
    var c := Resumable(states[a].disk, job);
    UnfinishedIsBacked(states[a].disk, job, states[b - 1]);
    LastStepOnDisk(w, states[b - 1], events[b - 1], states[b]);
    EndIsRecorded(states[a].disk, job, states[b]);
    RecordedIsResumable(states[b].disk, job, c);
  }

  lemma EndIsRecorded(d0: Disk, job: Job, s: Sys)
    requires Resumable(d0, job) > 0 && Keeps(d0, job, s) && s.phase.Idle?
    ensures Recorded(s.disk, job, Resumable(d0, job))
  {
    hide Checksum, Matches;
  }

  // ---- The exceptions, on the steps of the run ------------------------------------------------------------

  /** The step saves a sidecar that counts every fragment. */
  predicate SavesAll(s: Sys, e: Event, job: Job) {
    e == Save(true) && s.phase.Streaming? && s.phase.loop.done == job.Total()
  }

  /** The step is the look at a token that has fired, or a final flush that fails. */
  predicate StopsLate(s: Sys, e: Event) {
    (e.CheckCancel? && s.cancel) || e.FlushFault?
  }

  /** The run saved a sidecar that counts every fragment and was still stopped. */
  ghost predicate StoppedAfterTheLastSave(states: seq<Sys>, events: seq<Event>, a: nat, b: nat, job: Job)
    requires a < b < |states| && |states| == |events| + 1
  {
    && StopsLate(states[b - 1], events[b - 1])
    && exists k :: a < k < b - 1 && SavesAll(states[k], events[k], job)
  }

  lemma StartupNeverCountsAll(w: World, job: Job, s: Sys, e: Event, s': Sys)
    requires NextStartup(w, s, e, s') && !CountsAll(s.disk, job)
    ensures !CountsAll(s'.disk, job)
  {
    hide RevalidateAnchor, Checksum, Gate;
  }

  lemma OnlyASaveCountsAll(w: World, d0: Disk, job: Job, s: Sys, e: Event, s': Sys)
    requires Resumable(d0, job) > 0 && Keeps(d0, job, s) && !s.phase.Idle?
    requires Next(w, s, e, s') && StopsShort(e)
    requires CountsAll(s'.disk, job) && !CountsAll(s.disk, job)
    ensures SavesAll(s, e, job)
  {
    hide NextStartup, Checksum, Gate, Resumable;
    if NextStartup(w, s, e, s') {
      StartupNeverCountsAll(w, job, s, e, s');
    }
  }

  lemma BeginIsNotFull(w: World, s: Sys, job: Job, s': Sys)
    requires Resumable(s.disk, job) > 0 && Next(w, s, Begin(job), s')
    ensures !CountsAll(s'.disk, job)
  {
  }

  /** What the run's own steps satisfy, one at a time. */
  lemma StepOf(w: World, states: seq<Sys>, events: seq<Event>, a: nat, i: nat, b: nat, job: Job)
    requires StoppedRun(w, states, events, a, b, job) && a < i < b
    requires Resumable(states[a].disk, job) > 0
    ensures Next(w, states[i], events[i], states[i + 1]) && StopsShort(events[i]) && !states[i].phase.Idle?
    ensures WindowInvariant(states[i]) && Keeps(states[a].disk, job, states[i])
  {
    hide Next, Keeps, WindowInvariant, Resumable;
    WindowInvariantHolds(w, states, events, i);
    RunKeeps(w, states, events, a, i, b, job);
  }

  lemma {:induction false} SaveFound(w: World, states: seq<Sys>, events: seq<Event>, a: nat, n: nat, b: nat,
                                     job: Job)
    returns (k: nat)
    requires StoppedRun(w, states, events, a, b, job) && a < n <= b
    requires Resumable(states[a].disk, job) > 0 && CountsAll(states[n].disk, job)
    ensures a < k < n && SavesAll(states[k], events[k], job)
    decreases n
  {
    hide Next, Keeps, Resumable, CountsAll;
    if n == a + 1 {
      BeginIsNotFull(w, states[a], job, states[n]);
    } else {
      StepOf(w, states, events, a, n - 1, b, job);
      if CountsAll(states[n - 1].disk, job) {
        k := SaveFound(w, states, events, a, n - 1, b, job);
      } else {
        OnlyASaveCountsAll(w, states[a].disk, job, states[n - 1], events[n - 1], states[n]);
        k := n - 1;
      }
    }
  }

  lemma FullLoopStopsLate(job: Job, s: Sys, e: Event, s': Sys)
    requires s.phase.Streaming? && s.phase.loop.job == job && WindowInvariant(s)
    requires s.phase.loop.point.Starting? ==> s.phase.loop.done < job.Total()
    requires CountsAll(s.disk, job) && s.disk.record.value.doc.fragmentsDone <= s.phase.loop.done
    requires NextLoop(s, e, s') && s'.phase.Idle? && !e.Finish?
    ensures StopsLate(s, e)
  {
    hide HoldsPiece, Update, FromHeaders;
  }

  lemma FullRunStopsLate(w: World, d0: Disk, job: Job, s: Sys, e: Event, s': Sys)
    requires Resumable(d0, job) > 0 && Keeps(d0, job, s) && !s.phase.Idle? && WindowInvariant(s)
    requires Next(w, s, e, s') && StopsShort(e) && s'.phase.Idle? && CountsAll(s'.disk, job)
    ensures StopsLate(s, e)
  {
    hide NextStartup, NextLoop, WindowInvariant, Resumable, Gate, Checksum, Matches;
    LastStepOnDisk(w, s, e, s');
    FullStreams(d0, job, s);
    StartsUpBeforeStreaming(w, s, e, s');
    FullLoopStopsLate(job, s, e, s');
  }

  /** All is written and the sidecar on disk says so. */
  ghost predicate FullySaved(s: Sys, job: Job) {
    && s.phase.Streaming?
    && s.phase.loop.job == job
    && s.phase.loop.done == job.Total()
    && !s.phase.loop.point.Written?
    && CountsAll(s.disk, job)
  }

  lemma StartsUpBeforeStreaming(w: World, s: Sys, e: Event, s': Sys)
    ensures NextStartup(w, s, e, s') ==> !s.phase.Streaming?
  {
    hide RevalidateAnchor, Checksum, Gate;
  }

  lemma FullySavedStays(w: World, s: Sys, e: Event, s': Sys, job: Job)
    requires Next(w, s, e, s') && StopsShort(e) && WindowInvariant(s)
    requires FullySaved(s, job) || (SavesAll(s, e, job) && s.phase.loop.job == job)
    ensures CountsAll(s'.disk, job)
    ensures s'.phase.Streaming? ==> FullySaved(s', job)
  {
    hide NextStartup, HoldsPiece, Update, FromHeaders;
    StartsUpBeforeStreaming(w, s, e, s');
  }

  /** A run with everything saved is past its startup. */
  lemma FullStreams(d0: Disk, job: Job, s: Sys)
    requires Resumable(d0, job) > 0 && Keeps(d0, job, s) && !s.phase.Idle? && CountsAll(s.disk, job)
    ensures s.phase.Streaming?
  {
  }

  lemma {:induction false} FullySavedToTheEnd(w: World, states: seq<Sys>, events: seq<Event>, a: nat, k: nat, n: nat,
                                              b: nat, job: Job)
    requires StoppedRun(w, states, events, a, b, job) && a < k < n <= b
    requires Resumable(states[a].disk, job) > 0 && SavesAll(states[k], events[k], job)
    ensures CountsAll(states[n].disk, job)
    ensures n < b ==> FullySaved(states[n], job)
    decreases n
  {
    hide Next, Resumable, CountsAll, WindowInvariant;
    StepOf(w, states, events, a, n - 1, b, job);
    if n > k + 1 {
      FullySavedToTheEnd(w, states, events, a, k, n - 1, b, job);
    }
    FullySavedStays(w, states[n - 1], events[n - 1], states[n], job);
    if n < b {
      StepOf(w, states, events, a, n, b, job);
      FullStreams(states[a].disk, job, states[n]);
    }
  }

  lemma RunIsSeveralSteps(w: World, states: seq<Sys>, events: seq<Event>, a: nat, b: nat, job: Job)
    requires StoppedRun(w, states, events, a, b, job)
    ensures a + 1 < b
  {
    assert Next(w, states[a], events[a], states[a + 1]);
  }

  /**
    The exceptions on the run's own steps: confirmed progress is lost if and only if the run saved a sidecar
    that counts every fragment and then stopped at a fired token or at the final flush, or its last step was
    an error of the output file that damaged the recorded prefix.
  */
  lemma ProgressIsLostExactly(w: World, states: seq<Sys>, events: seq<Event>, a: nat, b: nat, job: Job)
    requires StoppedRun(w, states, events, a, b, job)
    requires Resumable(states[a].disk, job) > 0
    ensures Resumable(states[b].disk, job) < Resumable(states[a].disk, job)
       <==> StoppedAfterTheLastSave(states, events, a, b, job) || Damages(states[b - 1].disk, events[b - 1])
  {
    hide Next, Keeps, Resumable, CountsAll, WindowInvariant, Damages;
    StoppedRunKeepsProgress(w, states, events, a, b, job);
    if CountsAll(states[b].disk, job) {
      RunIsSeveralSteps(w, states, events, a, b, job);
      StepOf(w, states, events, a, b - 1, b, job);
      FullRunStopsLate(w, states[a].disk, job, states[b - 1], events[b - 1], states[b]);
      var k := SaveFound(w, states, events, a, b, b, job);
    }
    if StoppedAfterTheLastSave(states, events, a, b, job) {
      var k :| a < k < b - 1 && SavesAll(states[k], events[k], job);
      FullySavedToTheEnd(w, states, events, a, k, b, b, job);
    }
  }

  /**
    So a run whose file errors, if any, left the recorded prefix undamaged loses progress only after everything
    was written and saved: by a cancellation, or by the failure of the final flush.
  */
  lemma OnlyLateStopsLoseProgress(w: World, states: seq<Sys>, events: seq<Event>, a: nat, b: nat, job: Job)
    requires StoppedRun(w, states, events, a, b, job)
    requires !Damages(states[b - 1].disk, events[b - 1])
    requires Resumable(states[a].disk, job) > Resumable(states[b].disk, job)
    ensures CountsAll(states[b].disk, job)
    ensures states[b].phase == Idle(if events[b - 1].FlushFault? then Failure(job) else Cancelled(job))
  {
    hide Next, Keeps, Resumable, CountsAll, WindowInvariant, Damages;
    RunIsSeveralSteps(w, states, events, a, b, job);
    StepOf(w, states, events, a, b - 1, b, job);
    StoppedRunKeepsProgress(w, states, events, a, b, job);
    FullRunStopsLate(w, states[a].disk, job, states[b - 1], events[b - 1], states[b]);
    LateStopEnds(w, states[a].disk, job, states[b - 1], events[b - 1], states[b]);
  }

  lemma LateStopEnds(w: World, d0: Disk, job: Job, s: Sys, e: Event, s': Sys)
    requires Resumable(d0, job) > 0 && Keeps(d0, job, s)
    requires Next(w, s, e, s') && StopsLate(s, e)
    ensures s'.phase == Idle(if e.FlushFault? then Failure(job) else Cancelled(job))
  {
    hide RevalidateAnchor, Checksum, Gate, Resumable;
  }
}

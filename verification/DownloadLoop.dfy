/**
  `download_pre_resolved_fragments` (`crates/rdlp-downloader/src/fragments.rs`) as the program it is: gates,
  truncation, checksum, write and save loop over one open file. Every call is shown to be a run of the
  state machine of `ResumeProtocol`, so all its theorems hold of this code.

  The ordered stream of concurrent fetches appears here through what it yields, in list order; the
  machine covers every order in which the fetches behind it can finish.
*/
module DownloadLoop {
  import opened Wrappers
  import opened Words
  import opened Fragments
  import opened Fingerprint
  import opened Crc32
  import opened Revalidate
  import opened ResumeProtocol
  import opened ResumeSafety

  /** The output file, open for writing, and the sidecar beside it. */
  class Storage {
    var content: Bytes
    var position: nat
    var sidecar: Option<Sidecar>
    /** The sidecar with the job that saved it. */
    ghost var record: Option<Record>

    ghost predicate Valid()
      reads this
    {
      sidecar == if record.Some? then Some(record.value.doc) else None
    }

    ghost function Contents(): Disk
      reads this
    {
      Disk(content, record)
    }

    method Truncate(n: nat)
      modifies this`content
      ensures content == SetLen(old(content), n)
    {
      content := SetLen(content, n);
    }

    method Seek(n: nat)
      modifies this`position
      ensures position == n
    {
      position := n;
    }

    /** Write at the position: overwrites what is there, zero-fills a gap, extends past the end. */
    method WriteAll(bytes: Bytes)
      modifies this`content, this`position
      ensures old(position) == |old(content)| ==> content == old(content) + bytes
      ensures position == old(position) + |bytes| && |content| >= position
      ensures forall i :: 0 <= i < |content| ==>
        content[i] == if old(position) <= i < position then bytes[i - old(position)]
                      else if i < |old(content)| then old(content)[i] else 0
    {
      var end := position + |bytes|;
      content := SetLen(content, position) + bytes + (if end <= |content| then content[end..] else []);
      position := end;
    }

    /** Flush, whatever comes of it; a failed flush may leave anything behind. */
    method Flush(lost: Option<Bytes>)
      modifies this`content
      ensures content == AfterFlush(old(content), lost)
    {
      if lost.Some? {
        content := lost.value;
      }
    }
  }

  /** What a flush makes of the output when, failing, it leaves `lost`. */
  function AfterFlush(output: Bytes, lost: Option<Bytes>): Bytes {
    if lost.Some? then lost.value else output
  }

  datatype DownloadError = Stopped | WasCancelled

  /** Where a startup operation of the operating system fails, if one does. */
  datatype StartupError = Nowhere | ResolvingAnchor | Opening | Truncating | ReadingPrefix | Seeking

  /** Everything the surroundings decide during one call, by fragment index. */
  datatype Surroundings = Surroundings(
    error: StartupError,
    probe: Probe,
    cancelledAtStart: bool,
    fetch: nat -> Outcome,
    writeFails: nat -> Option<Bytes>,   // the bytes a failed write leaves in the file
    saveOk: nat -> bool,
    cancelledAfter: nat -> bool,
    lostAtStop: Option<Bytes>,          // what an ignored flush failure leaves, should the loop stop early
    flushFails: Option<Bytes>,
    sidecarRemoved: bool,
    shortRead: nat -> nat)

  // ---- When the call succeeds, fails or is cancelled ------------------------------------------------------

  /** The loop takes item `i`, writes it and goes on. */
  predicate Smooth(env: Surroundings, i: nat) {
    env.fetch(i) == Body && env.writeFails(i).None? && !env.cancelledAfter(i)
  }

  /** The loop stops at item `i` because the token has fired. */
  predicate Cancels(env: Surroundings, i: nat) {
    env.fetch(i) == SawCancel || (env.fetch(i) == Body && env.writeFails(i).None? && env.cancelledAfter(i))
  }

  /** The first item from `k` on at which the loop does not go on is `i`, and it is a cancellation. */
  predicate CancelledAt(env: Surroundings, k: nat, i: nat) {
    k <= i && Cancels(env, i) && forall j :: k <= j < i ==> Smooth(env, j)
  }

  /** The gates leave a record whose anchor the origin has to be asked about. */
  predicate Asks(d: Disk, job: Job) {
    Gate(d, job).Some? && Gate(d, job).value.doc.anchor.Some?
  }

  /** The record the gates and the probe leave to resume from. */
  function Confirmable(d: Disk, job: Job, env: Surroundings): Option<Record> {
    if Asks(d, job) && RevalidateAnchor(Gate(d, job).value.doc.anchor.value, env.probe) != Ok(Confirmed) then None
    else Gate(d, job)
  }

  /** That record's prefix is what its checksum says. */
  predicate Verified(d: Disk, job: Job, env: Surroundings) {
    var from := Confirmable(d, job, env);
    && from.Some? && from.value.doc.byteLen <= |d.output|
    && Checksum(d.output[..from.value.doc.byteLen]) == from.value.doc.streamCrc
  }

  /** The fragments a call does not fetch again. */
  function Kept(d: Disk, job: Job, env: Surroundings): nat {
    if Verified(d, job, env) then Confirmable(d, job, env).value.doc.fragmentsDone else 0
  }

  /** The call gets past gates and probe. */
  predicate ProbeHolds(d: Disk, job: Job, env: Surroundings) {
    Asks(d, job) ==> env.error != ResolvingAnchor && !env.probe.NoAnswer?
  }

  /** The call reaches its write loop. */
  predicate Starts(d: Disk, job: Job, env: Surroundings) {
    && ProbeHolds(d, job, env)
    && env.error != Opening && env.error != Truncating
    && !(env.error == ReadingPrefix && Confirmable(d, job, env).Some?)
    && !(env.error == Seeking && Verified(d, job, env))
  }

  /** Read-buffer size for hashing a partial. */
  const VERIFY_READ_BUF: nat := 1024 * 1024

  // ---- Histories that grow ------------------------------------------------------------------------------

  datatype Trace = Trace(states: seq<Sys>, events: seq<Event>)

  ghost predicate ValidTrace(w: World, t: Trace) {
    History(w, t.states, t.events)
  }

  function Now(t: Trace): Sys
    requires t.states != []
  {
    t.states[|t.states| - 1]
  }

  /** No checksum comparison of the history met a collision. */
  ghost predicate CollisionFree(t: Trace) {
    !Collided(t.states, t.events, |t.events|)
  }

  /** From state `a` on, `t` is one run of `job` that has not ended. */
  ghost predicate Running(w: World, t: Trace, a: nat, job: Job) {
    && ValidTrace(w, t)
    && a < |t.events|
    && t.states[a].phase.Idle? && t.events[a] == Begin(job)
    && forall i :: a < i < |t.states| ==> !t.states[i].phase.Idle?
  }

  /** From state `a` to the end, `t` is one whole run of `job`. */
  ghost predicate Ran(w: World, t: Trace, a: nat, job: Job) {
    && ValidTrace(w, t)
    && a < |t.events|
    && t.states[a].phase.Idle? && t.events[a] == Begin(job)
    && (forall i :: a < i < |t.events| ==> !t.states[i].phase.Idle?)
    && Now(t).phase.Idle?
  }

  predicate Continues(t: Trace, t': Trace) {
    t.states <= t'.states && t.events <= t'.events
  }

  /** `t'` continues `t`, and meets no collision unless `t` did. */
  ghost predicate Extends(t: Trace, t': Trace) {
    Continues(t, t') && (CollisionFree(t) ==> CollisionFree(t'))
  }

  lemma StaysCollisionFree(t: Trace, e: Event, s': Sys)
    requires |t.states| == |t.events| + 1 && CollisionFree(t) && !CollisionAt(Now(t), e)
    ensures CollisionFree(Trace(t.states + [s'], t.events + [e]))
  {
    hide CollisionAt;
    var states, events := t.states + [s'], t.events + [e];
    forall i | 0 <= i < |events| ensures !CollisionAt(states[i], events[i]) {
      if i < |t.events| {
        assert states[i] == t.states[i] && events[i] == t.events[i];
      }
    }
  }

  lemma Started(w: World, t: Trace, job: Job, cancel: bool) returns (t': Trace)
    requires ValidTrace(w, t) && Now(t).phase.Idle? && job in w.jobs
    ensures Running(w, t', |t.events|, job) && Extends(t, t')
    ensures Now(t') == Now(t).(phase := Gated(job, Gate(Now(t).disk, job)), cancel := cancel)
  {
    hide CollisionFree;
    var s' := Now(t).(phase := Gated(job, Gate(Now(t).disk, job)), cancel := cancel);
    assert Next(w, Now(t), Begin(job), s');
    t' := Trace(t.states + [s'], t.events + [Begin(job)]);
    if CollisionFree(t) {
      StaysCollisionFree(t, Begin(job), s');
    }
  }

  lemma Stepped(w: World, t: Trace, a: nat, job: Job, e: Event, s': Sys) returns (t': Trace)
    requires Running(w, t, a, job) && Next(w, Now(t), e, s') && !CollisionAt(Now(t), e)
    ensures s'.phase.Idle? ==> Ran(w, t', a, job)
    ensures !s'.phase.Idle? ==> Running(w, t', a, job)
    ensures Extends(t, t') && Now(t') == s'
  {
    t' := Compared(w, t, a, job, e, s');
  }

  /** A step that may meet a collision. */
  lemma Compared(w: World, t: Trace, a: nat, job: Job, e: Event, s': Sys) returns (t': Trace)
    requires Running(w, t, a, job) && Next(w, Now(t), e, s')
    ensures s'.phase.Idle? ==> Ran(w, t', a, job)
    ensures !s'.phase.Idle? ==> Running(w, t', a, job)
    ensures Continues(t, t') && Now(t') == s'
    ensures !CollisionAt(Now(t), e) ==> Extends(t, t')
  {
    hide Next, CollisionFree, CollisionAt;
    t' := Trace(t.states + [s'], t.events + [e]);
    if CollisionFree(t) && !CollisionAt(Now(t), e) {
      StaysCollisionFree(t, e, s');
    }
  }

  // ---- The runs of the machine the code goes through ------------------------------------------------------

  ghost function JobFor(parse: UrlParser, frags: seq<Fragment>, content: Content, headers: Headers,
                        concurrency: nat): Job
    requires |frags| < LONG
  {
    Job(Feed(OFFSET_BASIS, Manifest(parse, frags)), Pieces(frags, content), headers, concurrency)
  }

  ghost function EndedWith(r: Result<nat, DownloadError>, job: Job): Phase {
    match r
    case Ok(_) => Idle(Completed(job))
    case Err(Stopped) => Idle(Failure(job))
    case Err(WasCancelled) => Idle(Cancelled(job))
  }

  function NewState(fingerprint: U64, total: nat): Sidecar {
    Sidecar(fingerprint, total, 0, 0, 0, None)
  }

  /** The in-memory state a resumed or a fresh run starts streaming with. */
  ghost function LoopFrom(job: Job, st: Sidecar): Loop {
    Loop(job, st.anchor, st.fragmentsDone, st.byteLen, st.streamCrc, st.fragmentsDone, [], Starting, 0)
  }

  /** The run meets a startup error: whatever was done so far stays, and the call fails. */
  lemma Faulted(w: World, t: Trace, a: nat, job: Job) returns (t': Trace)
    requires Running(w, t, a, job)
    requires var p := Now(t).phase;
             || (p.Gated? && p.job == job) || (p.Opened? && p.job == job) || (p.Truncated? && p.job == job)
             || (p.Streaming? && p.loop.job == job && p.loop.point.Starting?)
    ensures Ran(w, t', a, job) && Extends(t, t')
    ensures Now(t') == Stop(Now(t), Failure(job))
  {
    hide NextAnytime, CollisionFree, Checksum, Stream;
    t' := Stepped(w, t, a, job, StartupFault, Stop(Now(t), Failure(job)));
  }

  /** Nothing to resume, or no anchor recorded: the origin is not asked. */
  lemma ProbeSkipped(w: World, t: Trace, a: nat, job: Job, from: Option<Record>) returns (t': Trace)
    requires Running(w, t, a, job) && Now(t).phase == Gated(job, from)
    requires from.Some? ==> from.value.doc.anchor.None?
    ensures Running(w, t', a, job) && Extends(t, t')
    ensures Now(t') == Now(t).(phase := Opened(job, from))
  {
    hide NextLoop, NextAnytime, CollisionFree, Checksum, Stream;
    t' := Stepped(w, t, a, job, SkipProbe, Now(t).(phase := Opened(job, from)));
  }

  lemma ProbeAnswered(w: World, t: Trace, a: nat, job: Job, r: Record, p: Probe) returns (t': Trace)
    requires Running(w, t, a, job) && Now(t).phase == Gated(job, Some(r))
    requires r.doc.anchor.Some? && (job.headers, r.doc.anchor.value, p) in w.answers
    ensures Extends(t, t')
    ensures var verdict := RevalidateAnchor(r.doc.anchor.value, p);
      if verdict.Err? then Ran(w, t', a, job) && Now(t') == Stop(Now(t), Failure(job))
      else && Running(w, t', a, job)
           && Now(t') == Now(t).(phase := Opened(job, if verdict.value == Confirmed then Some(r) else None))
  {
    hide NextLoop, NextAnytime, CollisionFree, Checksum, Stream, RevalidateAnchor;
    var verdict := RevalidateAnchor(r.doc.anchor.value, p);
    t' := Stepped(w, t, a, job, AnswerProbe(p),
                  if verdict.Err? then Stop(Now(t), Failure(job))
                  else Now(t).(phase := Opened(job, if verdict.value == Confirmed then Some(r) else None)));
  }

  lemma TailDropped(w: World, t: Trace, a: nat, job: Job, r: Record) returns (t': Trace)
    requires Running(w, t, a, job) && Now(t).phase == Opened(job, Some(r))
    ensures Running(w, t', a, job) && Extends(t, t')
    ensures Now(t') == Now(t).(disk := Disk(SetLen(Now(t).disk.output, r.doc.byteLen), Now(t).disk.record),
                               phase := Truncated(job, r))
  {
    hide NextLoop, NextAnytime, CollisionFree, Checksum, Stream;
    t' := Stepped(w, t, a, job, Event.Truncate,
                  Now(t).(disk := Disk(SetLen(Now(t).disk.output, r.doc.byteLen), Now(t).disk.record),
                          phase := Truncated(job, r)));
  }

  lemma ChecksumCompared(w: World, t: Trace, a: nat, job: Job, r: Record) returns (t': Trace)
    requires Running(w, t, a, job) && Now(t).phase == Truncated(job, r)
    ensures Running(w, t', a, job) && Continues(t, t')
    ensures Now(t') == Now(t).(phase := if Checksum(Now(t).disk.output) == r.doc.streamCrc
                                        then Streaming(ResumedLoop(job, r.doc)) else Opened(job, None))
    ensures r.doc.fragmentsDone <= r.job.Total() && Now(t).disk.output == Stream(r.job.pieces, r.doc.fragmentsDone)
            ==> Extends(t, t')
  {
    hide NextLoop, NextAnytime, CollisionFree, Checksum, Stream;
    t' := Compared(w, t, a, job, CompareChecksum,
                   Now(t).(phase := if Checksum(Now(t).disk.output) == r.doc.streamCrc
                                    then Streaming(ResumedLoop(job, r.doc)) else Opened(job, None)));
  }

  lemma Rewound(w: World, t: Trace, a: nat, job: Job) returns (t': Trace)
    requires Running(w, t, a, job) && Now(t).phase == Opened(job, None)
    ensures Running(w, t', a, job) && Extends(t, t')
    ensures Now(t') == Now(t).(disk := Disk([], Now(t).disk.record), phase := Streaming(FreshLoop(job)))
  {
    hide NextLoop, NextAnytime, CollisionFree, Checksum, Stream;
    t' := Stepped(w, t, a, job, Rewind,
                  Now(t).(disk := Disk([], Now(t).disk.record), phase := Streaming(FreshLoop(job))));
  }

  /** The write loop awaits its stream with nothing buffered, having written what `st` says. */
  ghost predicate AwaitsEmpty(w: World, t: Trace, a: nat, job: Job, st: Sidecar) {
    && Running(w, t, a, job)
    && !Now(t).cancel
    && Now(t).phase == Streaming(LoopFrom(job, st).(point := Awaiting))
  }

  lemma Entered(w: World, t: Trace, a: nat, job: Job, st: Sidecar) returns (t': Trace)
    requires Running(w, t, a, job) && !Now(t).cancel && Now(t).phase == Streaming(LoopFrom(job, st))
    ensures AwaitsEmpty(w, t', a, job, st) && Extends(t, t')
    ensures Now(t').disk == Now(t).disk
  {
    hide NextStartup, NextAnytime, CollisionFree, Checksum, Stream;
    t' := Stepped(w, t, a, job, EnterLoop, Now(t).(phase := Streaming(LoopFrom(job, st).(point := Awaiting))));
  }

  /** The window when the next item is all there is in it. */
  ghost function OneItem(job: Job, st: Sidecar, outcome: Outcome): Slot
    requires st.fragmentsDone < job.Total()
  {
    Slot(st.fragmentsDone,
         if outcome == Body then Fetched(job.pieces[st.fragmentsDone]) else FetchState.Failed(outcome == SawCancel))
  }

  ghost function Holding(job: Job, st: Sidecar, slot: Slot): Phase {
    Streaming(LoopFrom(job, st).(point := Awaiting, taken := st.fragmentsDone + 1, slots := [slot]))
  }

  lemma Opened1(w: World, t: Trace, a: nat, job: Job, st: Sidecar) returns (t': Trace)
    requires AwaitsEmpty(w, t, a, job, st) && st.fragmentsDone < job.Total()
    ensures Running(w, t', a, job) && Extends(t, t')
    ensures Now(t') == Now(t).(phase := Holding(job, st, Slot(st.fragmentsDone, InFlight)))
  {
    hide NextStartup, NextAnytime, CollisionFree, Checksum, Stream;
    var slot := Slot(st.fragmentsDone, InFlight);
    assert [] + [slot] == [slot];
    t' := Stepped(w, t, a, job, Spawn, Now(t).(phase := Holding(job, st, slot)));
  }

  /** The only fetch in the window ends; what becomes of it depends on the token. */
  lemma Resolved(w: World, t: Trace, a: nat, job: Job, st: Sidecar, outcome: Outcome) returns (t': Trace)
    requires Running(w, t, a, job) && st.fragmentsDone < job.Total()
    requires Now(t).phase == Holding(job, st, Slot(st.fragmentsDone, InFlight))
    requires if Now(t).cancel then outcome != Body else outcome != SawCancel
    ensures Running(w, t', a, job) && Extends(t, t')
    ensures Now(t') == Now(t).(phase := Holding(job, st, OneItem(job, st, outcome)))
  {
    hide NextStartup, NextAnytime, CollisionFree, Checksum, Stream;
    var item := OneItem(job, st, outcome);
    assert [Slot(st.fragmentsDone, InFlight)][0 := item] == [item];
    t' := Stepped(w, t, a, job, Resolve(0, outcome), Now(t).(phase := Holding(job, st, item)));
  }

  /** The stream yields its next item, good or bad. */
  lemma Yielded(w: World, t: Trace, a: nat, job: Job, st: Sidecar, outcome: Outcome) returns (t': Trace)
    requires AwaitsEmpty(w, t, a, job, st) && st.fragmentsDone < job.Total()
    ensures Running(w, t', a, job) && Extends(t, t')
    ensures Now(t') == Now(t).(phase := Holding(job, st, OneItem(job, st, outcome)), cancel := outcome == SawCancel)
  {
    hide NextStartup, NextLoop, NextAnytime, CollisionFree, Checksum, Stream;
    t' := Opened1(w, t, a, job, st);
    if outcome == SawCancel {
      t' := TokenFires(w, t', a, job);
    }
    t' := Resolved(w, t', a, job, st, outcome);
  }

  /** The token fires. */
  lemma TokenFires(w: World, t: Trace, a: nat, job: Job) returns (t': Trace)
    requires Running(w, t, a, job)
    ensures Running(w, t', a, job) && Extends(t, t') && Now(t') == Now(t).(cancel := true)
  {
    hide NextStartup, NextLoop, CollisionFree, Checksum, Stream;
    t' := Stepped(w, t, a, job, CancelFires, Now(t).(cancel := true));
  }

  /** The token has fired before the write loop is entered. */
  lemma CancelSeenAtStart(w: World, t: Trace, a: nat, job: Job) returns (t': Trace)
    requires Running(w, t, a, job) && Now(t).phase.Streaming?
    requires Now(t).phase.loop.job == job && Now(t).phase.loop.point.Starting?
    ensures Ran(w, t', a, job) && Extends(t, t')
    ensures Now(t').phase == Idle(Cancelled(job)) && Now(t').disk == Now(t).disk
  {
    hide NextStartup, NextAnytime, CollisionFree, Checksum, Stream;
    t' := TokenFires(w, t, a, job);
    t' := Stepped(w, t', a, job, EnterLoop, Stop(Now(t'), Cancelled(job)));
  }

  /** The token fires, and the loop returns at its next look. */
  lemma CancelSeen(w: World, t: Trace, a: nat, job: Job, lost: Option<Bytes>) returns (t': Trace)
    requires Running(w, t, a, job) && Now(t).phase.Streaming?
    requires Now(t).phase.loop.job == job && Now(t).phase.loop.point.Saved?
    ensures Ran(w, t', a, job) && Extends(t, t')
    ensures Now(t').phase == Idle(Cancelled(job))
    ensures Now(t').disk == Disk(AfterFlush(Now(t).disk.output, lost), Now(t).disk.record)
  {
    hide NextStartup, NextAnytime, CollisionFree, Checksum, Stream;
    t' := TokenFires(w, t, a, job);
    t' := Stepped(w, t', a, job, CheckCancel(lost), StopFlushed(Now(t'), Cancelled(job), lost));
  }

  /** An item that is an error ends the loop. */
  lemma FetchFailed(w: World, t: Trace, a: nat, job: Job, st: Sidecar, outcome: Outcome, lost: Option<Bytes>)
    returns (t': Trace)
    requires AwaitsEmpty(w, t, a, job, st) && st.fragmentsDone < job.Total() && outcome != Body
    ensures Ran(w, t', a, job) && Extends(t, t')
    ensures Now(t').phase == Idle(if outcome == SawCancel then Cancelled(job) else Failure(job))
    ensures Now(t').disk == Disk(AfterFlush(Now(t).disk.output, lost), Now(t).disk.record)
  {
    hide NextStartup, NextAnytime, CollisionFree, Checksum, Stream;
    t' := Yielded(w, t, a, job, st, outcome);
    var last := if outcome == SawCancel then Cancelled(job) else Failure(job);
    t' := Stepped(w, t', a, job, YieldError(lost), StopFlushed(Now(t'), last, lost));
  }

  /** The state after fragment `st.fragmentsDone` has been written. */
  ghost function AfterWrite(job: Job, st: Sidecar): Sidecar
    requires st.fragmentsDone < job.Total()
  {
    var piece := job.pieces[st.fragmentsDone];
    Sidecar(st.fingerprint, st.totalFragments, st.fragmentsDone + 1, st.byteLen + |piece|,
            Update(st.streamCrc, piece),
            if st.fragmentsDone == 0 then FromHeaders(job.headers) else st.anchor)
  }

  lemma WriteStep(s: Sys, job: Job, st: Sidecar, s': Sys)
    requires st.fragmentsDone < job.Total() && !s.cancel
    requires s.phase == Holding(job, st, OneItem(job, st, Body))
    requires s' == s.(disk := s.disk.(output := s.disk.output + job.pieces[st.fragmentsDone]),
                      phase := Streaming(LoopFrom(job, AfterWrite(job, st)).(point := Point.Written)))
    ensures NextLoop(s, Event.Write, s')
  {
    hide Update, FromHeaders;
    assert [OneItem(job, st, Body)][1..] == [];
  }

  lemma Wrote(w: World, t: Trace, a: nat, job: Job, st: Sidecar) returns (t': Trace)
    requires AwaitsEmpty(w, t, a, job, st) && st.fragmentsDone < job.Total()
    ensures Running(w, t', a, job) && Extends(t, t')
    ensures Now(t') == Now(t).(
                disk := Disk(Now(t).disk.output + job.pieces[st.fragmentsDone], Now(t).disk.record),
                phase := Streaming(LoopFrom(job, AfterWrite(job, st)).(point := Point.Written)))
  {
    hide NextStartup, NextLoop, NextAnytime, CollisionFree, Checksum, Stream, Update, FromHeaders;
    t' := Yielded(w, t, a, job, st, Body);
    var s := Now(t').(disk := Disk(Now(t').disk.output + job.pieces[st.fragmentsDone], Now(t').disk.record),
                      phase := Streaming(LoopFrom(job, AfterWrite(job, st)).(point := Point.Written)));
    WriteStep(Now(t'), job, st, s);
    t' := Stepped(w, t', a, job, Event.Write, s);
  }

  lemma WriteFailed(w: World, t: Trace, a: nat, job: Job, st: Sidecar, junk: Bytes) returns (t': Trace)
    requires AwaitsEmpty(w, t, a, job, st) && st.fragmentsDone < job.Total()
    ensures Ran(w, t', a, job) && Extends(t, t')
    ensures Now(t').phase == Idle(Failure(job)) && Now(t').disk == Disk(junk, Now(t).disk.record)
  {
    hide NextStartup, NextAnytime, CollisionFree, Checksum, Stream;
    t' := Yielded(w, t, a, job, st, Body);
    var s := Now(t');
    t' := Stepped(w, t', a, job, WriteFault(junk), Stop(s.(disk := s.disk.(output := junk)), Failure(job)));
  }

  /** An attempt to save the sidecar, successful or not. */
  lemma SaveTried(w: World, t: Trace, a: nat, job: Job, st: Sidecar, ok: bool) returns (t': Trace)
    requires Running(w, t, a, job) && Now(t).phase == Streaming(LoopFrom(job, st).(point := Point.Written))
    requires st.fingerprint == job.fingerprint && st.totalFragments == job.Total()
    ensures Running(w, t', a, job) && Extends(t, t') && Now(t').cancel == Now(t).cancel
    ensures Now(t').phase == Streaming(LoopFrom(job, st).(point := Saved))
    ensures Now(t').disk == if ok then Disk(Now(t).disk.output, Some(Record(st, job))) else Now(t).disk
  {
    hide NextStartup, NextAnytime, CollisionFree, Checksum, Stream;
    var s := Now(t);
    var next := s.(phase := Streaming(LoopFrom(job, st).(point := Saved)));
    t' := Stepped(w, t, a, job, Save(ok),
                  if ok then next.(disk := Disk(s.disk.output, Some(Record(st, job))),
                                   saved := s.saved + {Record(st, job)})
                  else next);
  }

  lemma NotCancelled(w: World, t: Trace, a: nat, job: Job, st: Sidecar) returns (t': Trace)
    requires Running(w, t, a, job) && !Now(t).cancel
    requires Now(t).phase == Streaming(LoopFrom(job, st).(point := Saved))
    ensures AwaitsEmpty(w, t', a, job, st) && Extends(t, t') && Now(t').disk == Now(t).disk
  {
    hide NextStartup, NextAnytime, CollisionFree, Checksum, Stream;
    t' := Stepped(w, t, a, job, CheckCancel(None), Now(t).(phase := Streaming(LoopFrom(job, st).(point := Awaiting))));
  }

  lemma FlushFailed(w: World, t: Trace, a: nat, job: Job, st: Sidecar, junk: Bytes) returns (t': Trace)
    requires AwaitsEmpty(w, t, a, job, st) && st.fragmentsDone == job.Total()
    ensures Ran(w, t', a, job) && Extends(t, t')
    ensures Now(t').phase == Idle(Failure(job)) && Now(t').disk == Disk(junk, Now(t).disk.record)
  {
    hide NextStartup, NextAnytime, CollisionFree, Checksum, Stream;
    var s := Now(t);
    t' := Stepped(w, t, a, job, FlushFault(junk), Stop(s.(disk := s.disk.(output := junk)), Failure(job)));
  }

  lemma Finished(w: World, t: Trace, a: nat, job: Job, st: Sidecar, removed: bool) returns (t': Trace)
    requires AwaitsEmpty(w, t, a, job, st) && st.fragmentsDone == job.Total()
    ensures Ran(w, t', a, job) && Extends(t, t') && Now(t').phase == Idle(Completed(job))
    ensures Now(t').disk == if removed then Disk(Now(t).disk.output, None) else Now(t).disk
  {
    hide NextStartup, NextAnytime, CollisionFree, Checksum, Stream;
    var s := Now(t);
    t' := Stepped(w, t, a, job, Finish(removed),
                  Stop(if removed then s.(disk := s.disk.(record := None)) else s, Completed(job)));
  }

  // ---- The download ---------------------------------------------------------------------------------------

  /** Load and gate the sidecar, then ask the origin whether its anchor still holds. */
  method GateAndProbe(disk: Storage, fingerprint: U64, total: nat, env: Surroundings,
                      ghost w: World, ghost job: Job, ghost t0: Trace)
    returns (ok: bool, resume: bool, st: Sidecar, ghost t: Trace)
    requires disk.Valid() && ValidTrace(w, t0) && Now(t0).phase.Idle? && Now(t0).disk == disk.Contents()
    requires job in w.jobs && job.fingerprint == fingerprint && job.Total() == total
    requires disk.sidecar.Some? && disk.sidecar.value.anchor.Some? ==>
               (job.headers, disk.sidecar.value.anchor.value, env.probe) in w.answers
    ensures Continues(t0, t) && ValidTrace(w, t) && Now(t).disk == disk.Contents()
    ensures !ok ==> Ran(w, t, |t0.events|, job) && Now(t).phase == Idle(Failure(job))
    ensures ok ==> Running(w, t, |t0.events|, job) && !Now(t).cancel
    ensures ok ==> Now(t).phase == Opened(job, if resume then disk.record else None)
    ensures ok && resume ==> disk.sidecar == Some(st) && st.byteLen <= |disk.content|
                             && st.fingerprint == fingerprint && st.totalFragments == total && st.fragmentsDone <= total
    ensures ok && !resume ==> st == NewState(fingerprint, total)
    ensures ok <==> ProbeHolds(disk.Contents(), job, env)
    ensures ok ==> (resume <==> Confirmable(disk.Contents(), job, env).Some?)
    ensures ok && resume ==> disk.record == Confirmable(disk.Contents(), job, env)
  {
    hide Next, CollisionFree, RevalidateAnchor, History;
    ghost var a := |t0.events|;
    var actualLen := |disk.content|;
    resume :=
      && disk.sidecar.Some?
      && disk.sidecar.value.fingerprint == fingerprint
      && disk.sidecar.value.totalFragments == total
      && !(disk.sidecar.value.fragmentsDone > 0 && disk.sidecar.value.byteLen == 0)
      && actualLen >= disk.sidecar.value.byteLen
      && disk.sidecar.value.fragmentsDone < total;
    st := if resume then disk.sidecar.value else NewState(fingerprint, total);
    t := Started(w, t0, job, false);
    ghost var from := if resume then disk.record else None;
    assert Gate(disk.Contents(), job) == from;

    if resume && st.anchor.Some? {
      if env.error == ResolvingAnchor {
        t := Faulted(w, t, a, job);
        return false, resume, st, t;
      }
      var verdict := RevalidateAnchor(st.anchor.value, env.probe);
      OnlySilenceIsAnError(st.anchor.value, env.probe);
      t := ProbeAnswered(w, t, a, job, from.value, env.probe);
      if verdict.Err? {
        return false, resume, st, t;
      }
      if verdict.value != Confirmed {
        resume := false;
        st := NewState(fingerprint, total);
      }
    } else {
      t := ProbeSkipped(w, t, a, job, from);
    }
    ok := true;
  }

  /** Drop the torn tail past the recorded boundary and compare the checksum of what is left. */
  method VerifyPrefix(disk: Storage, st: Sidecar, env: Surroundings,
                      ghost w: World, ghost job: Job, ghost a: nat, ghost t0: Trace)
    returns (ok: bool, intact: bool, ghost t: Trace)
    requires disk.Valid() && Running(w, t0, a, job) && Now(t0).disk == disk.Contents() && !Now(t0).cancel
    requires Now(t0).phase == Opened(job, disk.record)
    requires disk.sidecar == Some(st) && st.byteLen <= |disk.content|
    requires forall at: nat :: 1 <= env.shortRead(at)
    modifies disk`content
    ensures disk.Valid()
    ensures Continues(t0, t) && ValidTrace(w, t) && Now(t).disk == disk.Contents()
    ensures !ok ==> Ran(w, t, a, job) && Now(t).phase == Idle(Failure(job))
    ensures ok ==> Running(w, t, a, job) && !Now(t).cancel
    ensures ok ==> Now(t).phase == if intact then Streaming(ResumedLoop(job, st)) else Opened(job, None)
    ensures ok ==> |disk.content| == st.byteLen
    ensures ok <==> env.error != Truncating && env.error != ReadingPrefix
    ensures ok ==> (intact <==> Checksum(old(disk.content)[..st.byteLen]) == st.streamCrc)
  {
    hide Next, CollisionFree, Checksum, Stream;
    t := t0;
    intact := false;
    if env.error == Truncating {
      t := Faulted(w, t, a, job);
      return false, intact, t;
    }
    disk.Truncate(st.byteLen);
    t := TailDropped(w, t, a, job, disk.record.value);
    var actualCrc := PrefixChecksum(disk.content, st.byteLen, VERIFY_READ_BUF, env.shortRead);
    if env.error == ReadingPrefix || actualCrc.Err? {
      t := Faulted(w, t, a, job);
      return false, intact, t;
    }
    assert disk.content[..st.byteLen] == disk.content;
    intact := actualCrc.value == st.streamCrc;
    t := ChecksumCompared(w, t, a, job, disk.record.value);
    ok := true;
  }

  /** Open the output and, when resuming, verify its prefix; a bad one means a fresh start. */
  method OpenAndVerify(disk: Storage, resuming: bool, recorded: Sidecar, env: Surroundings,
                       ghost w: World, ghost job: Job, ghost a: nat, ghost t0: Trace)
    returns (ok: bool, resume: bool, st: Sidecar, ghost t: Trace)
    requires disk.Valid() && Running(w, t0, a, job) && Now(t0).disk == disk.Contents() && !Now(t0).cancel
    requires Now(t0).phase == Opened(job, if resuming then disk.record else None)
    requires resuming ==> disk.sidecar == Some(recorded) && recorded.byteLen <= |disk.content|
    requires recorded.fingerprint == job.fingerprint && recorded.totalFragments == job.Total()
    requires !resuming ==> recorded == NewState(job.fingerprint, job.Total())
    requires forall at: nat :: 1 <= env.shortRead(at)
    modifies disk`content, disk`position
    ensures disk.Valid()
    ensures Continues(t0, t) && ValidTrace(w, t) && Now(t).disk == disk.Contents()
    ensures !ok ==> Ran(w, t, a, job) && Now(t).phase == Idle(Failure(job))
    ensures ok ==> Running(w, t, a, job) && !Now(t).cancel
    ensures ok ==> Now(t).phase == if resume then Streaming(ResumedLoop(job, st)) else Opened(job, None)
    ensures ok && resume ==> st == recorded && |disk.content| == st.byteLen
    ensures ok && !resume ==> st == NewState(job.fingerprint, job.Total())
    ensures ok ==> disk.position == 0
    ensures ok <==> env.error != Opening && (resuming ==> env.error != Truncating && env.error != ReadingPrefix)
    ensures ok ==>
      (resume <==> resuming && Checksum(old(disk.content)[..recorded.byteLen]) == recorded.streamCrc)
  {
    hide Next, CollisionFree, Checksum;
    t, st, resume := t0, recorded, resuming;
    if env.error == Opening {
      t := Faulted(w, t, a, job);
      return false, resume, st, t;
    }
    disk.Seek(0);
    ok := true;
    if resuming {
      ok, resume, t := VerifyPrefix(disk, st, env, w, job, a, t);
      if ok && !resume {
        st := NewState(st.fingerprint, st.totalFragments);
      }
    }
  }

  /** Cut the file back to nothing for a fresh start. */
  method StartFresh(disk: Storage, env: Surroundings, ghost w: World, ghost job: Job, ghost a: nat, ghost t0: Trace)
    returns (ok: bool, ghost t: Trace)
    requires disk.Valid() && Running(w, t0, a, job) && Now(t0).disk == disk.Contents() && !Now(t0).cancel
    requires Now(t0).phase == Opened(job, None)
    modifies disk`content
    ensures disk.Valid()
    ensures Continues(t0, t) && ValidTrace(w, t) && Now(t).disk == disk.Contents()
    ensures !ok ==> Ran(w, t, a, job) && Now(t).phase == Idle(Failure(job))
    ensures ok ==> Running(w, t, a, job) && !Now(t).cancel && Now(t).phase == Streaming(FreshLoop(job))
    ensures ok ==> disk.content == []
    ensures ok <==> env.error != Truncating
  {
    hide Next, CollisionFree;
    if env.error == Truncating {
      t := Faulted(w, t0, a, job);
      return false, t;
    }
    disk.Truncate(0);
    t := Rewound(w, t0, a, job);
    ok := true;
  }

  /** Stand behind the verified prefix. */
  method Position(disk: Storage, st: Sidecar, env: Surroundings, ghost w: World, ghost job: Job, ghost a: nat,
                  ghost t0: Trace)
    returns (ok: bool, ghost t: Trace)
    requires disk.Valid() && Running(w, t0, a, job) && Now(t0).disk == disk.Contents()
    requires Now(t0).phase == Streaming(ResumedLoop(job, st))
    modifies disk`position
    ensures disk.Valid()
    ensures Continues(t0, t) && ValidTrace(w, t) && Now(t).disk == disk.Contents()
    ensures !ok ==> Ran(w, t, a, job) && Now(t).phase == Idle(Failure(job))
    ensures ok ==> t == t0 && disk.position == st.byteLen
    ensures ok <==> env.error != Seeking
  {
    hide Next, CollisionFree;
    if env.error == Seeking {
      t := Faulted(w, t0, a, job);
      return false, t;
    }
    disk.Seek(st.byteLen);
    return true, t0;
  }

  /**
    Everything before the write loop: gate, revalidate, truncate, verify, position. Returns nothing when
    the run ended here.
  */
  method Prepare(disk: Storage, fingerprint: U64, total: nat, env: Surroundings,
                 ghost w: World, ghost job: Job, ghost t0: Trace)
    returns (r: Option<Sidecar>, ghost t: Trace)
    requires disk.Valid() && ValidTrace(w, t0) && Now(t0).phase.Idle? && Now(t0).disk == disk.Contents()
    requires job in w.jobs && job.fingerprint == fingerprint && job.Total() == total
    requires disk.sidecar.Some? && disk.sidecar.value.anchor.Some? ==>
               (job.headers, disk.sidecar.value.anchor.value, env.probe) in w.answers
    requires forall at: nat :: 1 <= env.shortRead(at)
    modifies disk`content, disk`position
    ensures disk.Valid()
    ensures Continues(t0, t) && ValidTrace(w, t) && Now(t).disk == disk.Contents()
    ensures r.None? ==> Ran(w, t, |t0.events|, job) && Now(t).phase == Idle(Failure(job))
    ensures r.Some? ==> Running(w, t, |t0.events|, job) && !Now(t).cancel
    ensures r.Some? ==> Now(t).phase == Streaming(LoopFrom(job, r.value))
    ensures r.Some? ==> r.value.fingerprint == fingerprint && r.value.totalFragments == total
                        && r.value.fragmentsDone <= total
                        && r.value.byteLen == |disk.content| == disk.position
    ensures r.Some? <==> Starts(old(disk.Contents()), job, env)
    ensures r.Some? ==> r.value.fragmentsDone == Kept(old(disk.Contents()), job, env)
  {
    hide Next, History, CollisionFree, Checksum, Confirmable, ProbeHolds, Running, Ran;
    ghost var a, d0 := |t0.events|, disk.Contents();
    var ok, resume, st;
    ok, resume, st, t := GateAndProbe(disk, fingerprint, total, env, w, job, t0);
    if !ok {
      return None, t;
    }
    ok, resume, st, t := OpenAndVerify(disk, resume, st, env, w, job, a, t);
    if !ok {
      return None, t;
    }
    if resume {
      ok, t := Position(disk, st, env, w, job, a, t);
    } else {
      ok, t := StartFresh(disk, env, w, job, a, t);
    }
    return if ok then Some(st) else None, t;
  }

  /** One attempt to replace the sidecar: all or nothing. */
  method SaveSidecar(disk: Storage, st: Sidecar, ok: bool, ghost w: World, ghost job: Job, ghost a: nat,
                     ghost t0: Trace)
    returns (ghost t: Trace)
    requires disk.Valid() && Running(w, t0, a, job) && !Now(t0).cancel && Now(t0).disk == disk.Contents()
    requires st.fingerprint == job.fingerprint && st.totalFragments == job.Total()
    requires Now(t0).phase == Streaming(LoopFrom(job, st).(point := Point.Written))
    modifies disk`sidecar, disk`record
    ensures disk.Valid() && disk.sidecar == if ok then Some(st) else old(disk.sidecar)
    ensures Running(w, t, a, job) && !Now(t).cancel && Now(t).disk == disk.Contents()
    ensures Now(t).phase == Streaming(LoopFrom(job, st).(point := Saved))
    ensures Continues(t0, t)
  {
    hide Next, CollisionFree;
    t := SaveTried(w, t0, a, job, st, ok);
    if ok {
      disk.sidecar := Some(st);
      disk.record := Some(Record(st, job));
    }
  }

  /** Append a fetched item, advance the running state, and save it. */
  method AppendAndSave(disk: Storage, bytes: Bytes, validator: Option<Validator>, st: Sidecar, saveOk: bool,
                       ghost w: World, ghost job: Job, ghost a: nat, ghost t0: Trace)
    returns (st': Sidecar, ghost t: Trace)
    requires disk.Valid() && AwaitsEmpty(w, t0, a, job, st) && Now(t0).disk == disk.Contents()
    requires validator == FromHeaders(job.headers)
    requires st.fragmentsDone < job.Total() && job.pieces[st.fragmentsDone] == bytes
    requires st.fingerprint == job.fingerprint && st.totalFragments == job.Total()
    requires st.byteLen == |disk.content| == disk.position
    modifies disk
    ensures disk.Valid() && st' == AfterWrite(job, st)
    ensures disk.sidecar == if saveOk then Some(st') else old(disk.sidecar)
    ensures disk.content == old(disk.content) + bytes && disk.position == |disk.content|
    ensures Running(w, t, a, job) && !Now(t).cancel && Now(t).disk == disk.Contents()
    ensures Now(t).phase == Streaming(LoopFrom(job, st').(point := Saved))
    ensures Continues(t0, t)
  {
    hide Next, CollisionFree, Update, FromHeaders;
    disk.WriteAll(bytes);
    t := Wrote(w, t0, a, job, st);
    st' := Sidecar(st.fingerprint, st.totalFragments, st.fragmentsDone + 1, st.byteLen + |bytes|,
                   Update(st.streamCrc, bytes), if st.fragmentsDone == 0 then validator else st.anchor);
    t := SaveSidecar(disk, st', saveOk, w, job, a, t);
  }

  /** One turn of the write loop: take item `i`, append it, save the sidecar, look at the token. */
  method WriteOne(disk: Storage, task: (Fragment, bool), content: Content, validator: Option<Validator>,
                  st: Sidecar, env: Surroundings, ghost w: World, ghost job: Job, ghost a: nat, ghost t0: Trace)
    returns (stop: Option<DownloadError>, st': Sidecar, ghost t: Trace)
    requires disk.Valid() && AwaitsEmpty(w, t0, a, job, st) && Now(t0).disk == disk.Contents()
    requires validator == FromHeaders(job.headers)
    requires st.fragmentsDone < job.Total() && job.pieces[st.fragmentsDone] == TaskBytes(task, content)
    requires st.fingerprint == job.fingerprint && st.totalFragments == job.Total()
    requires st.byteLen == |disk.content| == disk.position
    modifies disk
    ensures disk.Valid() && ValidTrace(w, t) && Now(t).disk == disk.Contents()
    ensures Continues(t0, t)
    ensures stop.Some? ==> Ran(w, t, a, job) && Now(t).phase == EndedWith(Err(stop.value), job)
    ensures stop.None? ==> AwaitsEmpty(w, t, a, job, st') && st' == AfterWrite(job, st)
    ensures stop.None? ==> st'.byteLen == |disk.content| == disk.position
    ensures stop.None? <==> Smooth(env, st.fragmentsDone)
    ensures stop == Some(WasCancelled) <==> Cancels(env, st.fragmentsDone)
    ensures disk.sidecar == old(disk.sidecar) || disk.sidecar == Some(AfterWrite(job, st))
    ensures stop.None? && env.saveOk(st.fragmentsDone) ==> disk.sidecar == Some(st')
  {
    hide Next, CollisionFree, Update, FromHeaders, TaskBytes;
    var i := st.fragmentsDone;
    t, st' := t0, st;
    var item := env.fetch(i);
    if item != Body {
      t := FetchFailed(w, t, a, job, st, item, env.lostAtStop);
      disk.Flush(env.lostAtStop);
      return Some(if item == SawCancel then WasCancelled else Stopped), st', t;
    }
    var bytes := TaskBytes(task, content);
    if env.writeFails(i).Some? {
      disk.content := env.writeFails(i).value;
      t := WriteFailed(w, t, a, job, st, disk.content);
      return Some(Stopped), st', t;
    }
    st', t := AppendAndSave(disk, bytes, validator, st, env.saveOk(i), w, job, a, t);
    if env.cancelledAfter(i) {
      t := CancelSeen(w, t, a, job, env.lostAtStop);
      disk.Flush(env.lostAtStop);
      return Some(WasCancelled), st', t;
    }
    t := NotCancelled(w, t, a, job, st');
    stop := None;
  }

  /** After the last item: flush, and drop the sidecar. */
  method Close(disk: Storage, st: Sidecar, env: Surroundings, ghost w: World, ghost job: Job, ghost a: nat,
               ghost t0: Trace)
    returns (r: Result<nat, DownloadError>, ghost t: Trace)
    requires disk.Valid() && AwaitsEmpty(w, t0, a, job, st) && Now(t0).disk == disk.Contents()
    requires st.fragmentsDone == job.Total() && st.byteLen == |disk.content|
    modifies disk
    ensures disk.Valid()
    ensures Ran(w, t, a, job) && Continues(t0, t)
    ensures Now(t).phase == EndedWith(r, job) && Now(t).disk == disk.Contents()
    ensures r.Ok? ==> r.value == |disk.content|
    ensures r == if env.flushFails.None? then Ok(|disk.content|) else Err(Stopped)
    ensures disk.sidecar == if r.Ok? && env.sidecarRemoved then None else old(disk.sidecar)
    ensures r.Ok? ==> disk.content == old(disk.content)
  {
    hide Next, CollisionFree;
    disk.Flush(env.flushFails);
    if env.flushFails.Some? {
      t := FlushFailed(w, t0, a, job, st, disk.content);
      return Err(Stopped), t;
    }
    if env.sidecarRemoved {
      disk.sidecar := None;
      disk.record := None;
    }
    t := Finished(w, t0, a, job, st, env.sidecarRemoved);
    return Ok(st.byteLen), t;
  }

  /** The write loop: take the stream's items in list order until one stops the run or none is left. */
  method WriteLoop(disk: Storage, tasks: seq<(Fragment, bool)>, content: Content, validator: Option<Validator>,
                   start: Sidecar, env: Surroundings, ghost w: World, ghost job: Job, ghost a: nat, ghost t0: Trace)
    returns (r: Result<nat, DownloadError>, ghost t: Trace)
    requires disk.Valid() && AwaitsEmpty(w, t0, a, job, start) && Now(t0).disk == disk.Contents()
    requires |tasks| == job.Total() && validator == FromHeaders(job.headers)
    requires forall i :: 0 <= i < |tasks| ==> job.pieces[i] == TaskBytes(tasks[i], content)
    requires start.fingerprint == job.fingerprint && start.totalFragments == job.Total()
    requires start.fragmentsDone <= job.Total() && start.byteLen == |disk.content| == disk.position
    modifies disk
    ensures disk.Valid()
    ensures Ran(w, t, a, job) && Continues(t0, t)
    ensures Now(t).phase == EndedWith(r, job) && Now(t).disk == disk.Contents()
    ensures r.Ok? ==> r.value == |disk.content|
    ensures r.Ok? <==>
      (forall i :: start.fragmentsDone <= i < |tasks| ==> Smooth(env, i)) && env.flushFails.None?
    ensures r == Err(WasCancelled) <==> exists i: nat :: i < |tasks| && CancelledAt(env, start.fragmentsDone, i)
    ensures r.Ok? && env.sidecarRemoved ==> disk.sidecar.None?
    ensures r.Err? ==> forall i :: start.fragmentsDone <= i < |tasks| && SavedAt(env, start.fragmentsDone, i) ==>
      disk.sidecar.Some? && disk.sidecar.value.fragmentsDone > i
  {
    hide Next, CollisionFree, Update, FromHeaders, TaskBytes, Smooth, Cancels, CancelledAt;
    t := t0;
    var st := start;
    for i := start.fragmentsDone to |tasks|
      invariant disk.Valid()
      invariant AwaitsEmpty(w, t, a, job, st) && Now(t).disk == disk.Contents()
      invariant Continues(t0, t)
      invariant st.fingerprint == job.fingerprint && st.totalFragments == job.Total()
      invariant st.fragmentsDone == i && st.byteLen == |disk.content| == disk.position
      invariant forall j :: start.fragmentsDone <= j < i ==> Smooth(env, j)
      invariant forall j :: start.fragmentsDone <= j < i && env.saveOk(j) ==>
        disk.sidecar.Some? && disk.sidecar.value.fragmentsDone > j
    {
      var stop;
      stop, st, t := WriteOne(disk, tasks[i], content, validator, st, env, w, job, a, t);
      if stop.Some? {
        StopsAt(env, start.fragmentsDone, i);
        return Err(stop.value), t;
      }
    }
    NeverStops(env, start.fragmentsDone, |tasks|);
    r, t := Close(disk, st, env, w, job, a, t);
  }

  /** Item `i` was written after all from `k` on, the loop went on, and its save succeeded. */
  predicate SavedAt(env: Surroundings, k: nat, i: nat) {
    env.saveOk(i) && forall j :: k <= j <= i ==> Smooth(env, j)
  }

  lemma StopsAt(env: Surroundings, k: nat, n: nat)
    requires k <= n && !Smooth(env, n) && forall j :: k <= j < n ==> Smooth(env, j)
    ensures Cancels(env, n) <==> exists i: nat :: CancelledAt(env, k, i)
    ensures Cancels(env, n) ==> CancelledAt(env, k, n)
    ensures forall i: nat :: CancelledAt(env, k, i) ==> i == n
    ensures forall i: nat :: k <= i && SavedAt(env, k, i) ==> i < n
  {
    forall i: nat ensures CancelledAt(env, k, i) ==> i == n {
      SmoothDoesNotCancel(env, i);
    }
    if Cancels(env, n) {
      assert CancelledAt(env, k, n);
    }
  }

  lemma SmoothDoesNotCancel(env: Surroundings, i: nat)
    ensures Smooth(env, i) ==> !Cancels(env, i)
  {
  }

  lemma NeverStops(env: Surroundings, k: nat, n: nat)
    requires forall j :: k <= j < n ==> Smooth(env, j)
    ensures forall i: nat :: i < n ==> !CancelledAt(env, k, i)
  {
    forall i: nat | i < n ensures !CancelledAt(env, k, i) {
      SmoothDoesNotCancel(env, i);
    }
  }

  /** How the call ends, given what it found and what the surroundings did: exactly when it succeeds or is cancelled. */
  ghost predicate EndsAsItMust(d: Disk, job: Job, env: Surroundings, r: Result<nat, DownloadError>) {
    var k := Kept(d, job, env);
    && (r.Ok? <==>
          && Starts(d, job, env) && !env.cancelledAtStart
          && (forall i :: k <= i < job.Total() ==> Smooth(env, i))
          && env.flushFails.None?)
    && (r == Err(WasCancelled) <==>
          && Starts(d, job, env)
          && (env.cancelledAtStart || exists i: nat :: i < job.Total() && CancelledAt(env, k, i)))
  }

  /** Every fragment that was written and whose save succeeded is counted by the sidecar left behind. */
  ghost predicate ProgressIsRecorded(d: Disk, job: Job, env: Surroundings, sidecar: Option<Sidecar>) {
    Starts(d, job, env) && !env.cancelledAtStart ==>
      forall i :: Kept(d, job, env) <= i < job.Total() && SavedAt(env, Kept(d, job, env), i) ==>
        sidecar.Some? && sidecar.value.fragmentsDone > i
  }

  /** Gate and verify, then write: the call, as a run of the state machine. */
  method GateThenWrite(disk: Storage, parse: UrlParser, frags: seq<Fragment>, content: Content,
                       headers: Headers, concurrency: nat, env: Surroundings, ghost w: World, ghost t0: Trace)
    returns (r: Result<nat, DownloadError>, ghost t: Trace)
    requires |frags| < LONG
    requires disk.Valid() && ValidTrace(w, t0) && Now(t0).phase.Idle? && Now(t0).disk == disk.Contents()
    requires JobFor(parse, frags, content, headers, concurrency) in w.jobs
    requires disk.sidecar.Some? && disk.sidecar.value.anchor.Some? ==>
               (headers, disk.sidecar.value.anchor.value, env.probe) in w.answers
    requires forall at: nat :: 1 <= env.shortRead(at)
    modifies disk
    ensures disk.Valid()
    ensures var job := JobFor(parse, frags, content, headers, concurrency);
            && Ran(w, t, |t0.events|, job)
            && Now(t).phase == EndedWith(r, job)
    ensures Now(t).disk == disk.Contents() && Continues(t0, t)
    ensures r.Ok? ==> r.value == |disk.content|
    ensures var job := JobFor(parse, frags, content, headers, concurrency);
      EndsAsItMust(old(disk.Contents()), job, env, r)
    ensures r.Ok? && env.sidecarRemoved ==> disk.sidecar.None?
    ensures var job := JobFor(parse, frags, content, headers, concurrency);
      r.Err? ==> ProgressIsRecorded(old(disk.Contents()), job, env, disk.sidecar)
  {
    hide Next, CollisionFree, Feed, Manifest, FromHeaders, TaskBytes, Smooth, CancelledAt, SavedAt, Kept, Starts;
    ghost var job := JobFor(parse, frags, content, headers, concurrency);
    ghost var a := |t0.events|;
    var fingerprint := FragmentFingerprint(parse, frags);
    var start;
    start, t := Prepare(disk, fingerprint, |frags|, env, w, job, t0);
    if start.None? {
      return Err(Stopped), t;
    }
    if env.cancelledAtStart {
      t := CancelSeenAtStart(w, t, a, job);
      return Err(WasCancelled), t;
    }
    t := Entered(w, t, a, job, start.value);
    var tasks := PlanInits(frags);
    r, t := WriteLoop(disk, tasks, content, FromHeaders(headers), start.value, env, w, job, a, t);
  }

  lemma CompletedIsSafe(w: World, t: Trace, job: Job)
    requires ValidTrace(w, t) && Identifiable(w) && Now(t).phase == Idle(Completed(job))
    ensures Now(t).disk.output == Stream(job.pieces, job.Total()) || !CollisionFree(t)
  {
    hide Next, Identifiable, Collided;
    CompletedOutputIsWhole(w, t.states, t.events, |t.states| - 1, job);
  }

  /**
    One call. Whatever the surroundings do, the call is one run of the state machine from the disk it
    found to the disk it leaves; where origins are identifiable, success means the complete stream, unless
    a checksum comparison in the history met a collision.
  */
  method DownloadPreResolvedFragments(disk: Storage, parse: UrlParser, frags: seq<Fragment>, content: Content,
                                      headers: Headers, concurrency: nat, env: Surroundings,
                                      ghost w: World, ghost t0: Trace)
    returns (r: Result<nat, DownloadError>, ghost t: Trace)
    requires |frags| < LONG
    requires disk.Valid() && ValidTrace(w, t0) && Now(t0).phase.Idle? && Now(t0).disk == disk.Contents()
    requires JobFor(parse, frags, content, headers, concurrency) in w.jobs
    requires disk.sidecar.Some? && disk.sidecar.value.anchor.Some? ==>
               (headers, disk.sidecar.value.anchor.value, env.probe) in w.answers
    requires forall at: nat :: 1 <= env.shortRead(at)
    modifies disk
    ensures disk.Valid()
    ensures var job := JobFor(parse, frags, content, headers, concurrency);
            && Ran(w, t, |t0.events|, job)
            && Now(t).phase == EndedWith(r, job)
    ensures Now(t).disk == disk.Contents() && Continues(t0, t)
    ensures r.Ok? ==> r.value == |disk.content|
    ensures r.Ok? && Identifiable(w) ==>
              || disk.content == Stream(Pieces(frags, content), |frags|)
                              == Rendered(Emitted(frags, |frags|), frags, content)
              || !CollisionFree(t)
    ensures var job := JobFor(parse, frags, content, headers, concurrency);
      EndsAsItMust(old(disk.Contents()), job, env, r)
    ensures r.Ok? && env.sidecarRemoved ==> disk.sidecar.None?
    ensures var job := JobFor(parse, frags, content, headers, concurrency);
      r.Err? ==> ProgressIsRecorded(old(disk.Contents()), job, env, disk.sidecar)
  {
    hide Next, CollisionFree, Identifiable, Feed, Manifest, EndsAsItMust, ProgressIsRecorded;
    hide Rendered, Emitted, Stream, Pieces;
    StreamIsRendered(frags, content, |frags|);
    r, t := GateThenWrite(disk, parse, frags, content, headers, concurrency, env, w, t0);
    if r.Ok? && Identifiable(w) {
      CompletedIsSafe(w, t, JobFor(parse, frags, content, headers, concurrency));
    }
  }
}

/**
  The fragment downloader as a state machine that survives crashes
  (`download_pre_resolved_fragments` in `crates/rdlp-downloader/src/fragments.rs`, with the sidecar of
  `crates/rdlp-downloader/src/fragments/state.rs`).

  A state is the output file, the resume sidecar beside it, and how far the current run has got. Each
  event is one thing the run or its surroundings can do: gate the sidecar, probe the origin, truncate,
  check the checksum, start or finish a fetch, write, save, be cancelled, fail, crash.
*/
module ResumeProtocol {
  import opened Wrappers
  import opened Fragments
  import opened Crc32
  import opened Revalidate

  /** One call: the list's fingerprint, the bytes its tasks fetch, and what fragment 0's response offers. */
  datatype Job = Job(fingerprint: U64, pieces: seq<Bytes>, headers: Headers, concurrency: nat)
  {
    function Total(): nat {
      |pieces|
    }

    function Window(): nat {
      if concurrency < 1 then 1 else concurrency
    }
  }

  /** `HlsResumeState`, without its version (constant) and time stamp (never read). */
  datatype Sidecar = Sidecar(
    fingerprint: U64,
    totalFragments: nat,
    fragmentsDone: nat,
    byteLen: nat,
    streamCrc: U32,
    anchor: Option<Validator>)

  /** A saved sidecar together with the job that saved it. The job is history: no step reads it. */
  datatype Record = Record(doc: Sidecar, job: Job)

  datatype Disk = Disk(output: Bytes, record: Option<Record>)

  predicate Matches(doc: Sidecar, job: Job) {
    && doc.fingerprint == job.fingerprint
    && doc.totalFragments == job.Total()
    && !(doc.fragmentsDone > 0 && doc.byteLen == 0)
  }

  /** The record a run starts from, when the fingerprint, length and completeness gates let it resume. */
  function Gate(d: Disk, job: Job): Option<Record> {
    if && d.record.Some?
       && Matches(d.record.value.doc, job)
       && |d.output| >= d.record.value.doc.byteLen
       && d.record.value.doc.fragmentsDone < job.Total()
    then d.record else None
  }

  /** What a file system does with `set_len`. */
  function SetLen(file: Bytes, n: nat): (r: Bytes)
    ensures |r| == n && forall i :: 0 <= i < n ==> r[i] == if i < |file| then file[i] else 0
  {
    if n <= |file| then file[..n] else file + seq(n - |file|, _ => 0)
  }

  /** A failed fetch keeps its own error: that it was cancelled, or any other. */
  datatype FetchState = InFlight | Fetched(body: Bytes) | Failed(cancelled: bool)

  /** What a fetch comes to after its retries. */
  datatype Outcome = Body | Broke | SawCancel

  /** A fetch in the ordered window: which entry of the list it is for, and how far it has got. */
  datatype Slot = Slot(index: nat, state: FetchState)

  /** Where the write loop stands. */
  datatype Point = Starting | Awaiting | Written | Saved

  datatype Loop = Loop(
    job: Job,
    anchor: Option<Validator>,
    done: nat,
    totalBytes: nat,
    hasher: U32,
    taken: nat,          // entries taken from the list, the skipped ones included
    slots: seq<Slot>,    // their fetches, in the order they were taken
    point: Point,
    late: nat)           // fragments written after the cancel token fired
  {
    function Doc(): Sidecar {
      Sidecar(job.fingerprint, job.Total(), done, totalBytes, hasher, anchor)
    }

    function Written(body: Bytes, cancelled: bool): Loop
      requires slots != []
    {
      this.(anchor := if done == 0 then FromHeaders(job.headers) else anchor,
            done := done + 1,
            totalBytes := totalBytes + |body|,
            hasher := Update(hasher, body),
            slots := slots[1..],
            point := Point.Written,
            late := if cancelled then late + 1 else late)
    }
  }

  function FreshLoop(job: Job): Loop {
    Loop(job, None, 0, 0, 0, 0, [], Starting, 0)
  }

  function ResumedLoop(job: Job, doc: Sidecar): Loop {
    Loop(job, doc.anchor, doc.fragmentsDone, doc.byteLen, doc.streamCrc, doc.fragmentsDone, [], Starting, 0)
  }

  datatype Ending = NotRun | Crashed | Failure(job: Job) | Cancelled(job: Job) | Completed(job: Job)

  datatype Phase =
    | Idle(last: Ending)
    | Gated(job: Job, from: Option<Record>)      // sidecar loaded and gated
    | Opened(job: Job, from: Option<Record>)     // anchor revalidated, output open
    | Truncated(job: Job, record: Record)        // torn tail dropped, checksum not yet compared
    | Streaming(loop: Loop)

  /** `saved` is every sidecar ever written for this output. It is history: no step of a run reads it. */
  datatype Sys = Sys(disk: Disk, saved: set<Record>, phase: Phase, cancel: bool)

  ghost predicate Init(s: Sys) {
    s.disk.record == None && s.saved == {} && s.phase == Idle(NotRun)
  }

  datatype Event =
    | Begin(job: Job)
    | StartupFault                               // URL resolution, open, set_len, read or seek error
    | SkipProbe
    | AnswerProbe(probe: Probe)
    | Truncate
    | CompareChecksum
    | Rewind                                     // fresh start: set_len(0)
    | EnterLoop
    | Spawn
    | Resolve(i: nat, outcome: Outcome)
    | Write
    | WriteFault(junk: Bytes)
    | YieldError(lost: Option<Bytes>)            // the flush before returning may fail unnoticed
    | Save(ok: bool)
    | CheckCancel(lost: Option<Bytes>)           // so may this one
    | Finish(sidecarRemoved: bool)
    | FlushFault(junk: Bytes)
    | CancelFires
    | Crash(junk: Bytes, record: Option<Record>)

  /** The jobs that may be run and the answers origins may give to an anchor probe. */
  datatype World = World(jobs: iset<Job>, answers: iset<(Headers, Validator, Probe)>)

  function Stop(s: Sys, last: Ending): Sys {
    s.(phase := Idle(last))
  }

  /** The run returns after a flush whose failure it ignores; a failed flush may leave anything behind. */
  function StopFlushed(s: Sys, last: Ending, lost: Option<Bytes>): Sys {
    Stop(if lost.Some? then s.(disk := s.disk.(output := lost.value)) else s, last)
  }

  /** The bytes an error of the output file, reported or not, leaves in it. */
  function LeftByFault(e: Event): Option<Bytes> {
    match e
    case WriteFault(junk) => Some(junk)
    case FlushFault(junk) => Some(junk)
    case YieldError(lost) => lost
    case CheckCancel(lost) => lost
    case _ => None
  }

  ghost predicate NextStartup(w: World, s: Sys, e: Event, s': Sys) {
    match e
    case Begin(job) =>
      && s.phase.Idle?
      && job in w.jobs
      && s' == s.(phase := Gated(job, Gate(s.disk, job)), cancel := s'.cancel)
    case StartupFault =>
      && (s.phase.Gated? || s.phase.Opened? || s.phase.Truncated?)
      && s' == Stop(s, Failure(s.phase.job))
    case SkipProbe =>
      && s.phase.Gated?
      && (s.phase.from.Some? ==> s.phase.from.value.doc.anchor.None?)
      && s' == s.(phase := Opened(s.phase.job, s.phase.from))
    case AnswerProbe(p) =>
      && s.phase.Gated?
      && s.phase.from.Some?
      && s.phase.from.value.doc.anchor.Some?
      && var anchor := s.phase.from.value.doc.anchor.value;
      && (s.phase.job.headers, anchor, p) in w.answers
      && s' == (match RevalidateAnchor(anchor, p)
                case Err(_) => Stop(s, Failure(s.phase.job))
                case Ok(Confirmed) => s.(phase := Opened(s.phase.job, s.phase.from))
                case Ok(_) => s.(phase := Opened(s.phase.job, None)))
    case Truncate =>
      && s.phase.Opened?
      && s.phase.from.Some?
      && var r := s.phase.from.value;
      && s' == s.(disk := s.disk.(output := SetLen(s.disk.output, r.doc.byteLen)),
                  phase := Truncated(s.phase.job, r))
    case CompareChecksum =>
      && s.phase.Truncated?
      && var r := s.phase.record;
      && s' == if Checksum(s.disk.output) == r.doc.streamCrc then
                 s.(phase := Streaming(ResumedLoop(s.phase.job, r.doc)))
               else
                 s.(phase := Opened(s.phase.job, None))
    case Rewind =>
      && s.phase.Opened?
      && s.phase.from.None?
      && s' == s.(disk := s.disk.(output := []), phase := Streaming(FreshLoop(s.phase.job)))
    case _ => false
  }

  ghost predicate NextLoop(s: Sys, e: Event, s': Sys)
    requires s.phase.Streaming?
  {
    var l := s.phase.loop;
    match e
    case StartupFault =>
      && l.point == Starting
      && s' == Stop(s, Failure(l.job))
    case EnterLoop =>
      && l.point == Starting
      && s' == if s.cancel then Stop(s, Cancelled(l.job)) else s.(phase := Streaming(l.(point := Awaiting)))
    case Spawn =>
      && l.point == Awaiting
      && |l.slots| < l.job.Window()
      && l.taken < l.job.Total()
      && s' == s.(phase := Streaming(l.(taken := l.taken + 1, slots := l.slots + [Slot(l.taken, InFlight)])))
    case Resolve(i, outcome) =>
      && l.point == Awaiting
      && i < |l.slots| && l.slots[i].state.InFlight?
      && l.slots[i].index < l.job.Total()
      && (if s.cancel then outcome != Body else outcome != SawCancel)   // the cancel arm of the race goes first
      && var state := if outcome == Body then Fetched(l.job.pieces[l.slots[i].index]) else Failed(outcome == SawCancel);
      && s' == s.(phase := Streaming(l.(slots := l.slots[i := l.slots[i].(state := state)])))
    case Write =>
      && l.point == Awaiting
      && l.slots != [] && l.slots[0].state.Fetched?
      && var body := l.slots[0].state.body;
      && s' == s.(disk := s.disk.(output := s.disk.output + body),
                  phase := Streaming(l.Written(body, s.cancel)))
    case WriteFault(junk) =>
      && l.point == Awaiting
      && l.slots != [] && l.slots[0].state.Fetched?
      && s' == Stop(s.(disk := s.disk.(output := junk)), Failure(l.job))
    case YieldError(lost) =>
      && l.point == Awaiting
      && l.slots != [] && l.slots[0].state.Failed?
      && s' == StopFlushed(s, if l.slots[0].state.cancelled then Cancelled(l.job) else Failure(l.job), lost)
    case Save(ok) =>
      && l.point == Point.Written
      && var next := s.(phase := Streaming(l.(point := Saved)));
      && s' == if ok then
                 next.(disk := s.disk.(record := Some(Record(l.Doc(), l.job))),
                       saved := s.saved + {Record(l.Doc(), l.job)})
               else next
    case CheckCancel(lost) =>
      && l.point == Saved
      && (lost.Some? ==> s.cancel)
      && s' == if s.cancel then StopFlushed(s, Cancelled(l.job), lost)
               else s.(phase := Streaming(l.(point := Awaiting)))
    case Finish(removed) =>
      && l.point == Awaiting
      && l.slots == [] && l.taken == l.job.Total()
      && s' == Stop(if removed then s.(disk := s.disk.(record := None)) else s, Completed(l.job))
    case FlushFault(junk) =>
      && l.point == Awaiting
      && l.slots == [] && l.taken == l.job.Total()
      && s' == Stop(s.(disk := s.disk.(output := junk)), Failure(l.job))
    case _ => false
  }

  /** The sidecar being written when the run is between its write and its save. */
  function Pending(s: Sys): set<Record> {
    if s.phase.Streaming? && s.phase.loop.point == Point.Written
    then {Record(s.phase.loop.Doc(), s.phase.loop.job)}
    else {}
  }

  ghost predicate NextAnytime(s: Sys, e: Event, s': Sys) {
    match e
    case CancelFires =>
      && !s.phase.Idle?
      && s' == s.(cancel := true)
    case Crash(junk, record) =>
      // Nothing is synced: the output may hold anything, and the sidecar may be any that was ever written.
      && (record.Some? ==> record.value in s.saved + Pending(s))
      && s' == s.(disk := Disk(junk, record), saved := s.saved + Pending(s), phase := Idle(Crashed))
    case _ => false
  }

  ghost predicate Next(w: World, s: Sys, e: Event, s': Sys) {
    || NextStartup(w, s, e, s')
    || (s.phase.Streaming? && NextLoop(s, e, s'))
    || NextAnytime(s, e, s')
  }

  /**
    A checksum collision: the run compares an output with the checksum of the equally long but different
    prefix its sidecar was saved over, and the two checksums are the same.
  */
  ghost predicate CollisionAt(s: Sys, e: Event) {
    && e.CompareChecksum?
    && s.phase.Truncated?
    && var r := s.phase.record;
    && r in s.saved
    && r.doc.fragmentsDone <= r.job.Total()
    && var prefix := Stream(r.job.pieces, r.doc.fragmentsDone);
    && s.disk.output != prefix
    && |s.disk.output| == |prefix|
    && Checksum(s.disk.output) == Checksum(prefix)
  }

  /** A history: any number of runs, in any order, interleaved with crashes. */
  ghost predicate History(w: World, states: seq<Sys>, events: seq<Event>) {
    && |states| == |events| + 1
    && Init(states[0])
    && forall i :: 0 <= i < |events| ==> Next(w, states[i], events[i], states[i + 1])
  }

  /** Among the first `n` steps of a history some checksum comparison met a collision. */
  ghost predicate Collided(states: seq<Sys>, events: seq<Event>, n: nat) {
    exists i :: 0 <= i < n && i < |states| && i < |events| && CollisionAt(states[i], events[i])
  }
}

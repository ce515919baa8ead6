/**
  The edges of resume safety: what the fingerprint identifies and what it cannot, histories that show that the
  hypothesis of `ResumeSafety` is exactly what safety takes, and that the exceptions of `ResumeProgress` are real.
*/
module ResumeLimits {
  import opened Wrappers
  import opened Words
  import opened Fragments
  import opened Fingerprint
  import opened Crc32
  import opened Revalidate
  import opened ResumeProtocol
  import opened ResumeSafety
  import opened ResumeProgress
  import opened DownloadLoop

  // ---- What an equal fingerprint means for the bytes ------------------------------------------------------

  /** The origin serves by path: hosts and query tokens do not change the bytes. */
  ghost predicate ServesByPath(parse: UrlParser, content: Content) {
    forall u, v, r :: UrlPath(parse, u) == UrlPath(parse, v) ==> content(u, r) == content(v, r)
  }

  /** The two lists fetch their init segments at the same fragments. */
  predicate SamePlan(fs: seq<Fragment>, gs: seq<Fragment>) {
    |fs| == |gs| && forall i :: 0 <= i < |fs| ==> NeedsInit(fs, i) == NeedsInit(gs, i)
  }

  /** No init segment of the list is empty. */
  predicate HasInits(fs: seq<Fragment>, content: Content) {
    forall i :: 0 <= i < |fs| && fs[i].initUrl.Some? ==> content(fs[i].initUrl.value, fs[i].initByteRange) != []
  }

  lemma SamePiece(parse: UrlParser, fs: seq<Fragment>, gs: seq<Fragment>, content: Content, i: nat)
    requires ServesByPath(parse, content) && SameManifest(parse, fs, gs) && HasInits(fs, content)
    requires i < |fs|
    ensures Pieces(fs, content)[i] == Pieces(gs, content)[i] <==> NeedsInit(fs, i) == NeedsInit(gs, i)
  {
    var f, g := fs[i], gs[i];
    assert Reduced(parse, f) == Reduced(parse, g);
    assert content(f.url, f.byteRange) == content(g.url, g.byteRange);
    if f.initUrl.Some? {
      assert content(f.initUrl.value, f.initByteRange) == content(g.initUrl.value, g.initByteRange);
    }
    if NeedsInit(fs, i) != NeedsInit(gs, i) {
      assert |Pieces(fs, content)[i]| != |Pieces(gs, content)[i]|;
    }
  }

  /**
    Lists with one manifest, served by path, stand for the same bytes exactly when they fetch their init
    segments at the same fragments. The fingerprint ignores hosts and queries but the plan compares whole
    init URLs, so the first does not imply the second.
  */
  lemma SameManifestSamePieces(parse: UrlParser, fs: seq<Fragment>, gs: seq<Fragment>, content: Content)
    requires ServesByPath(parse, content) && SameManifest(parse, fs, gs) && HasInits(fs, content)
    ensures Pieces(fs, content) == Pieces(gs, content) <==> SamePlan(fs, gs)
  {
    forall i | 0 <= i < |fs|
      ensures Pieces(fs, content)[i] == Pieces(gs, content)[i] <==> NeedsInit(fs, i) == NeedsInit(gs, i)
    {
      SamePiece(parse, fs, gs, content, i);
    }
  }

  /**
    Two lists with equal manifests and different bytes, over any two media URLs and for any two init URLs of
    one path (they differ in host or query only) that serve a non-empty segment: the second list rotates the
    token of its init URL.
  */
  lemma RotatedInitTokenChangesTheStream(parse: UrlParser, content: Content, x: Str, y: Str, u: Str, v: Str)
    requires ServesByPath(parse, content)
    requires u != v && parse(u).Some? && parse(u) == parse(v) && content(u, None) != []
    ensures exists fs: seq<Fragment>, gs: seq<Fragment> ::
              && |fs| == |gs| == 2
              && fs[0].url == gs[0].url == x && fs[1].url == gs[1].url == y
              && Manifest(parse, fs) == Manifest(parse, gs)
              && Pieces(fs, content) != Pieces(gs, content)
  {
    hide Manifest, Pieces;
    var a := Fragment(x, None, Some(u), None, None);
    var b := Fragment(y, None, Some(u), None, None);
    var c := Fragment(y, None, Some(v), None, None);
    var fs, gs := [a, b], [a, c];
    assert Reduced(parse, b) == Reduced(parse, c);
    assert SameManifest(parse, fs, gs);
    ManifestIsInjective(parse, fs, gs);
    assert UrlPath(parse, u) == UrlPath(parse, v);
    SameManifestSamePieces(parse, fs, gs, content);
    assert !NeedsInit(fs, 1) && NeedsInit(gs, 1);
  }

  /** The lists one origin is asked for over time, resolved afresh for each run. */
  ghost predicate OneOrigin(w: World, parse: UrlParser, content: Content, lists: iset<seq<Fragment>>) {
    && ServesByPath(parse, content)
    && (forall fs :: fs in lists ==> |fs| < LONG && HasInits(fs, content))
    && (forall j :: j in w.jobs ==> exists fs ::
          fs in lists && j.pieces == Pieces(fs, content) && j.fingerprint == Feed(OFFSET_BASIS, Manifest(parse, fs)))
  }

  /** Among the lists in use, an equal fingerprint comes from equal manifest bytes. */
  ghost predicate NoFingerprintCollision(parse: UrlParser, lists: iset<seq<Fragment>>)
    requires forall fs :: fs in lists ==> |fs| < LONG
  {
    forall fs, gs ::
      fs in lists && gs in lists
      && Feed(OFFSET_BASIS, Manifest(parse, fs)) == Feed(OFFSET_BASIS, Manifest(parse, gs))
      ==> Manifest(parse, fs) == Manifest(parse, gs)
  }

  /**
    The hypothesis of the safety theorem in the repository's own terms: one origin that serves by path,
    lists whose fingerprints do not collide and whose init plans agree whenever their manifests do.
  */
  lemma OneOriginIsUnchanged(w: World, parse: UrlParser, content: Content, lists: iset<seq<Fragment>>)
    requires OneOrigin(w, parse, content, lists) && NoFingerprintCollision(parse, lists)
    requires forall fs, gs :: fs in lists && gs in lists && SameManifest(parse, fs, gs) ==> SamePlan(fs, gs)
    ensures UnchangedOrigin(w)
  {
    forall j1, j2 | j1 in w.jobs && j2 in w.jobs && j1.fingerprint == j2.fingerprint && j1.Total() == j2.Total()
      ensures j1.pieces == j2.pieces
    {
      var fs :| fs in lists && j1.pieces == Pieces(fs, content)
                && j1.fingerprint == Feed(OFFSET_BASIS, Manifest(parse, fs));
      var gs :| gs in lists && j2.pieces == Pieces(gs, content)
                && j2.fingerprint == Feed(OFFSET_BASIS, Manifest(parse, gs));
      ManifestIsInjective(parse, fs, gs);
      SameManifestSamePieces(parse, fs, gs, content);
    }
  }

  // ---- Which changes of an origin its validators tell apart -----------------------------------------------

  /** Two states of an origin with different strong entity tags, whatever their dates: the tags suffice. */
  lemma DifferentTagsSuffice(j1: Job, j2: Job, tag1: string, tag2: string)
    requires j1.headers.etag == Some(Strong(tag1)) && j2.headers.etag == Some(Strong(tag2)) && tag1 != tag2
    ensures StrongAnchors(World(iset{j1, j2}, iset{}))
  {
  }

  /**
    The hypothesis has content: two states of an origin whose bytes differ under one list satisfy it if and
    only if both offer a validator and neither's validator names the other.
  */
  lemma TwoStatesAreTold(j1: Job, j2: Job)
    requires SameList(j1, j2) && j1.pieces != j2.pieces
    ensures StrongAnchors(World(iset{j1, j2}, iset{})) <==>
      && FromHeaders(j1.headers).Some? && !Names(FromHeaders(j1.headers).value, j2.headers)
      && FromHeaders(j2.headers).Some? && !Names(FromHeaders(j2.headers).value, j1.headers)
  {
    var w := World(iset{j1, j2}, iset{});
    assert j1 in w.jobs && j2 in w.jobs;
  }

  // ---- Histories --------------------------------------------------------------------------------------------

  /** A run that finds nothing to resume reaches its write loop. */
  lemma FreshStart(w: World, t: Trace, job: Job) returns (t': Trace)
    requires ValidTrace(w, t) && Now(t).phase.Idle? && Gate(Now(t).disk, job).None?
    requires job in w.jobs
    ensures AwaitsEmpty(w, t', |t.events|, job, NewState(job.fingerprint, job.Total())) && Extends(t, t')
    ensures Now(t').disk == Disk([], Now(t).disk.record)
  {
    hide Next, CollisionFree;
    var a := |t.events|;
    t' := Started(w, t, job, false);
    t' := ProbeSkipped(w, t', a, job, None);
    t' := Rewound(w, t', a, job);
    t' := Entered(w, t', a, job, NewState(job.fingerprint, job.Total()));
  }

  /** The state after the run has written on up to fragment `n`. */
  ghost function AfterWrites(job: Job, st: Sidecar, n: nat): (st': Sidecar)
    requires st.fragmentsDone <= n <= job.Total()
    ensures st'.fragmentsDone == n
    ensures st'.fingerprint == st.fingerprint && st'.totalFragments == st.totalFragments
    decreases n
  {
    if n == st.fragmentsDone then st else AfterWrite(job, AfterWrites(job, st, n - 1))
  }

  /** The run takes, writes and saves its next fragment. */
  lemma WroteAndSaved(w: World, t: Trace, a: nat, job: Job, st: Sidecar) returns (t': Trace)
    requires AwaitsEmpty(w, t, a, job, st) && st.fragmentsDone < job.Total()
    requires st.fingerprint == job.fingerprint && st.totalFragments == job.Total()
    ensures Running(w, t', a, job) && !Now(t').cancel && Extends(t, t')
    ensures Now(t').phase == Streaming(LoopFrom(job, AfterWrite(job, st)).(point := Saved))
    ensures Now(t').disk == Disk(Now(t).disk.output + job.pieces[st.fragmentsDone],
                                 Some(Record(AfterWrite(job, st), job)))
  {
    hide Next, CollisionFree, Update, FromHeaders;
    t' := Wrote(w, t, a, job, st);
    t' := SaveTried(w, t', a, job, AfterWrite(job, st), true);
  }

  /**
    The run takes, writes and saves its fragments up to `n`. The output follows the stream of any pieces it
    already holds a prefix of and that agree with the job's from here on.
  */
  lemma {:induction false} WroteUpTo(w: World, t: Trace, a: nat, job: Job, st: Sidecar, n: nat, pieces: seq<Bytes>)
    returns (t': Trace)
    requires AwaitsEmpty(w, t, a, job, st) && st.fragmentsDone <= n <= job.Total()
    requires st.fingerprint == job.fingerprint && st.totalFragments == job.Total()
    requires |pieces| == job.Total() && pieces[st.fragmentsDone..] == job.pieces[st.fragmentsDone..]
    requires Now(t).disk.output == Stream(pieces, st.fragmentsDone)
    ensures AwaitsEmpty(w, t', a, job, AfterWrites(job, st, n)) && Extends(t, t')
    ensures Now(t').disk.output == Stream(pieces, n)
    ensures Now(t').disk.record ==
            if n == st.fragmentsDone then Now(t).disk.record else Some(Record(AfterWrites(job, st, n), job))
    decreases n
  {
    hide Next, CollisionFree, Update, FromHeaders, Running, AfterWrite;
    t' := t;
    if n > st.fragmentsDone {
      t' := WroteUpTo(w, t, a, job, st, n - 1, pieces);
      t' := WroteAndSaved(w, t', a, job, AfterWrites(job, st, n - 1));
      assert pieces[n - 1] == pieces[st.fragmentsDone..][n - 1 - st.fragmentsDone] == job.pieces[n - 1];
      t' := NotCancelled(w, t', a, job, AfterWrites(job, st, n));
    }
  }

  /** What a fresh run has saved after `k` fragments. */
  ghost function SavedAfter(job: Job, k: nat): Sidecar
    requires 1 <= k <= job.Total()
  {
    Sidecar(job.fingerprint, job.Total(), k, |Stream(job.pieces, k)|, Checksum(Stream(job.pieces, k)),
            FromHeaders(job.headers))
  }

  lemma {:induction false} FreshWrites(job: Job, k: nat)
    requires 1 <= k <= job.Total()
    ensures AfterWrites(job, NewState(job.fingerprint, job.Total()), k) == SavedAfter(job, k)
  {
    hide Update, FromHeaders;
    var st := NewState(job.fingerprint, job.Total());
    assert Stream(job.pieces, k) == Stream(job.pieces, k - 1) + job.pieces[k - 1];
    UpdateConcat(0, Stream(job.pieces, k - 1), job.pieces[k - 1]);
    EmptyChecksum();
    if k == 1 {
      assert AfterWrites(job, st, 0) == st;
    } else {
      FreshWrites(job, k - 1);
    }
  }

  /** A fresh run of `job` writes and saves `k` fragments, and is cancelled while it fetches the next. */
  lemma CutShort(w: World, t: Trace, job: Job, k: nat) returns (t': Trace)
    requires ValidTrace(w, t) && Now(t).phase.Idle? && Gate(Now(t).disk, job).None?
    requires job in w.jobs && 1 <= k < job.Total()
    ensures Ran(w, t', |t.events|, job) && Extends(t, t') && Now(t').phase == Idle(Cancelled(job))
    ensures Now(t').disk == Disk(Stream(job.pieces, k), Some(Record(SavedAfter(job, k), job)))
  {
    hide Next, CollisionFree, Update, FromHeaders;
    var a := |t.events|;
    var st := NewState(job.fingerprint, job.Total());
    t' := FreshStart(w, t, job);
    t' := WroteUpTo(w, t', a, job, st, k, job.pieces);
    FreshWrites(job, k);
    t' := FetchFailed(w, t', a, job, SavedAfter(job, k), SawCancel, None);
  }

  /** Nothing was recorded to ask about, or an answer confirmed it: the run goes on to the prefix. */
  lemma ProbePassed(w: World, t: Trace, a: nat, job: Job, r: Record) returns (t': Trace)
    requires Running(w, t, a, job) && Now(t).phase == Gated(job, Some(r))
    requires NotRefuted(w, r.doc.anchor, job)
    ensures Running(w, t', a, job) && Extends(t, t')
    ensures Now(t') == Now(t).(phase := Opened(job, Some(r)))
  {
    hide Next, CollisionFree, RevalidateAnchor;
    if r.doc.anchor.None? {
      t' := ProbeSkipped(w, t, a, job, Some(r));
    } else {
      var p :| (job.headers, r.doc.anchor.value, p) in w.answers
               && RevalidateAnchor(r.doc.anchor.value, p) == Ok(Confirmed);
      t' := ProbeAnswered(w, t, a, job, r, p);
    }
  }

  /** A run that may resume from `r`, whose anchor is not refuted, finds the prefix intact and reaches its loop. */
  lemma ResumedStart(w: World, t: Trace, job: Job, r: Record) returns (t': Trace)
    requires ValidTrace(w, t) && Now(t).phase.Idle? && job in w.jobs
    requires Gate(Now(t).disk, job) == Some(r) && NotRefuted(w, r.doc.anchor, job)
    requires r.doc.byteLen == |Now(t).disk.output| && r.doc.streamCrc == Checksum(Now(t).disk.output)
    requires r.doc.fragmentsDone <= r.job.Total()
    requires Now(t).disk.output == Stream(r.job.pieces, r.doc.fragmentsDone)
    ensures AwaitsEmpty(w, t', |t.events|, job, r.doc) && Extends(t, t')
    ensures Now(t').disk == Now(t).disk
  {
    hide Next, CollisionFree, Checksum, Stream, NotRefuted;
    var a := |t.events|;
    t' := Started(w, t, job, false);
    t' := ProbePassed(w, t', a, job, r);
    assert SetLen(Now(t).disk.output, r.doc.byteLen) == Now(t).disk.output;
    t' := TailDropped(w, t', a, job, r);
    t' := ChecksumCompared(w, t', a, job, r);
    t' := Entered(w, t', a, job, r.doc);
  }

  /** Before the first run: no sidecar, an empty output. */
  ghost function Beginning(): Trace {
    Trace([Sys(Disk([], None), {}, Idle(NotRun), false)], [])
  }

  lemma UndiscriminatedIsNotRefuted(w: World, o: Job, j: Job)
    requires !Discriminates(w, o, j)
    ensures NotRefuted(w, FromHeaders(o.headers), j)
  {
    hide RevalidateAnchor, FromHeaders;
  }

  /** A run of `o` is cut short after `k` fragments, not all empty, and a run of `j` resumes from what it left. */
  lemma ResumedAcross(w: World, o: Job, j: Job, k: nat) returns (t: Trace, a: nat)
    requires o in w.jobs && j in w.jobs && SameList(o, j) && !Discriminates(w, o, j)
    requires 1 <= k < o.Total() && Stream(o.pieces, k) != []
    ensures ValidTrace(w, t) && a < |t.events| && t.states[a].phase.Idle?
    ensures t.states[a].disk == Disk(Stream(o.pieces, k), Some(Record(SavedAfter(o, k), o)))
    ensures AwaitsEmpty(w, t, a, j, SavedAfter(o, k)) && CollisionFree(t)
    ensures Now(t).disk == t.states[a].disk
  {
    hide Next, Checksum, Stream, FromHeaders, Discriminates, NotRefuted;
    t := Beginning();
    t := CutShort(w, t, o, k);
    a := |t.events|;
    UndiscriminatedIsNotRefuted(w, o, j);
    t := ResumedStart(w, t, j, Record(SavedAfter(o, k), o));
  }

  // ---- Exactly when a completed output is whole -----------------------------------------------------------

  /** The first `k` pieces of one job and the rest of another. */
  ghost function Spliced(o: Job, j: Job, k: nat): seq<Bytes>
    requires k <= o.Total() == j.Total()
  {
    o.pieces[..k] + j.pieces[k..]
  }

  lemma {:induction false} StreamOfPrefix(ps: seq<Bytes>, qs: seq<Bytes>, k: nat)
    requires k <= |ps| && k <= |qs| && ps[..k] == qs[..k]
    ensures Stream(ps, k) == Stream(qs, k)
  {
    if k > 0 {
      assert ps[..k - 1] == ps[..k][..k - 1] == qs[..k - 1];
      assert ps[k - 1] == ps[..k][k - 1] == qs[k - 1];
      StreamOfPrefix(ps, qs, k - 1);
    }
  }

  lemma CutTail(x: Bytes, y: Bytes, z: Bytes)
    ensures x + z == y + z ==> x == y
  {
    assert |x + z| == |y + z| ==> |x| == |y|;
    assert |x| == |y| ==> (x + z)[..|x|] == x && (y + z)[..|x|] == y;
  }

  /** Streams that differ at `k` and continue alike never meet again. */
  lemma {:induction false} StreamsStayApart(ps: seq<Bytes>, qs: seq<Bytes>, k: nat, n: nat)
    requires k <= n <= |ps| == |qs| && ps[k..] == qs[k..]
    requires Stream(ps, k) != Stream(qs, k)
    ensures Stream(ps, n) != Stream(qs, n)
    decreases n
  {
    if k < n {
      StreamsStayApart(ps, qs, k, n - 1);
      assert ps[n - 1] == ps[k..][n - 1 - k] == qs[n - 1];
      CutTail(Stream(ps, n - 1), Stream(qs, n - 1), ps[n - 1]);
    }
  }

  /**
    Whenever bytes change under one list behind a validator that does not show it, a completed output can
    splice the two, at any fragment and with no checksum at fault.
  */
  lemma ChangedOriginCanBeSpliced(w: World, o: Job, j: Job, k: nat)
    requires o in w.jobs && j in w.jobs && SameList(o, j) && !Discriminates(w, o, j)
    requires 1 <= k < o.Total() && Stream(o.pieces, k) != [] && Stream(o.pieces, k) != Stream(j.pieces, k)
    ensures exists t: Trace ::
              && ValidTrace(w, t) && CollisionFree(t)
              && Now(t).phase == Idle(Completed(j))
              && Now(t).disk.output == Stream(Spliced(o, j, k), j.Total()) != Stream(j.pieces, j.Total())
  {
    hide Next, CollisionFree, Update, FromHeaders, Discriminates;
    var ps := Spliced(o, j, k);
    assert ps[..k] == o.pieces[..k] && ps[k..] == j.pieces[k..];
    StreamOfPrefix(o.pieces, ps, k);
    StreamsStayApart(ps, j.pieces, k, j.Total());
    var st := SavedAfter(o, k);
    var t, a := ResumedAcross(w, o, j, k);
    t := WroteUpTo(w, t, a, j, st, j.Total(), ps);
    t := Finished(w, t, a, j, AfterWrites(j, st, j.Total()), false);
  }

  /** Every history that completes a run without a checksum collision leaves that run's own stream. */
  ghost predicate AlwaysWhole(w: World) {
    forall t: Trace, job: Job ::
      ValidTrace(w, t) && CollisionFree(t) && Now(t).phase == Idle(Completed(job))
      ==> Now(t).disk.output == Stream(job.pieces, job.Total())
  }

  /**
    The hypothesis of the safety theorem is exact: completed outputs are whole if and only if any two jobs
    of one list agree on what can be resumed or are told apart by the probe.
  */
  lemma SafetyExactly(w: World)
    ensures AlwaysWhole(w) <==> Identifiable(w)
  {
    hide Next, CollisionFree, Identifiable, Discriminates;
    if Identifiable(w) {
      forall t: Trace, job: Job
        | ValidTrace(w, t) && CollisionFree(t) && Now(t).phase == Idle(Completed(job))
        ensures Now(t).disk.output == Stream(job.pieces, job.Total())
      {
        CompletedIsSafe(w, t, job);
      }
    } else {
      var o, j, k := UnidentifiedPair(w);
      ChangedOriginCanBeSpliced(w, o, j, k);
    }
  }

  lemma UnidentifiedPair(w: World) returns (o: Job, j: Job, k: nat)
    requires !Identifiable(w)
    ensures o in w.jobs && j in w.jobs && SameList(o, j) && !Discriminates(w, o, j)
    ensures 1 <= k < o.Total() && Stream(o.pieces, k) != [] && Stream(o.pieces, k) != Stream(j.pieces, k)
  {
    hide Discriminates;
    o, j :| o in w.jobs && j in w.jobs && SameList(o, j) && !SamePrefixes(o, j) && !Discriminates(w, o, j);
    k :| 1 <= k < o.Total() && Stream(o.pieces, k) != [] && Stream(o.pieces, k) != Stream(j.pieces, k);
  }

  /** The jobs of origins that answer anything true, and nothing else. */
  ghost function TruthfulWorld(jobs: iset<Job>): World {
    World(jobs, iset h: Headers, v: Validator, p: Probe | Truthful(h, v, p) :: (h, v, p))
  }

  /** Against truthful origins a change is told apart exactly when the old validator does not name the new state. */
  lemma ToldApartByName(jobs: iset<Job>, o: Job, j: Job)
    ensures Discriminates(TruthfulWorld(jobs), o, j) <==>
            FromHeaders(o.headers).Some? && !Names(FromHeaders(o.headers).value, j.headers)
  {
    hide RevalidateAnchor, Truthful, FromHeaders;
    var w := TruthfulWorld(jobs);
    if FromHeaders(o.headers).Some? {
      var v := FromHeaders(o.headers).value;
      if Names(v, j.headers) {
        var p := RepeatedAnswer(v, j.headers);
        assert (j.headers, v, p) in w.answers;
      } else {
        forall p | (j.headers, v, p) in w.answers ensures RevalidateAnchor(v, p) != Ok(Confirmed) {
          if RevalidateAnchor(v, p) == Ok(Confirmed) {
            ConfirmedNamesCurrent(v, j.headers, p);
          }
        }
      }
    }
  }

  /** A 200 that repeats its validators confirms what it names. */
  lemma RepeatedAnswer(v: Validator, current: Headers) returns (p: Probe)
    requires Names(v, current)
    ensures Truthful(current, v, p) && RevalidateAnchor(v, p) == Ok(Confirmed)
  {
    p := Answer(S200, None, false, current);
    assert Complete(current, v, p);
    VerdictIsExact(v, current, p);
  }

  /** Safety against truthful origins, in terms of the headers they serve. */
  lemma SafetyAgainstTruthfulOrigins(jobs: iset<Job>)
    ensures AlwaysWhole(TruthfulWorld(jobs)) <==>
            forall o, j :: o in jobs && j in jobs && SameList(o, j) ==>
              || SamePrefixes(o, j)
              || (FromHeaders(o.headers).Some? && !Names(FromHeaders(o.headers).value, j.headers))
  {
    hide AlwaysWhole, Discriminates, Names, FromHeaders, SamePrefixes;
    var w := TruthfulWorld(jobs);
    SafetyExactly(w);
    forall o, j
      ensures Discriminates(w, o, j) <==>
              FromHeaders(o.headers).Some? && !Names(FromHeaders(o.headers).value, j.headers)
    {
      ToldApartByName(jobs, o, j);
    }
  }

  // ---- The window can fill ----------------------------------------------------------------------------------

  /** The fetches of `m` entries from `k` on, all in progress. */
  function Fetching(k: nat, m: nat): seq<Slot> {
    seq(m, i requires 0 <= i < m => Slot(k + i, InFlight))
  }

  lemma {:induction false} FetchingCounts(k: nat, m: nat)
    ensures CountInFlight(Fetching(k, m)) == m
    decreases m
  {
    if m > 0 {
      assert Fetching(k, m)[1..] == Fetching(k + 1, m - 1);
      FetchingCounts(k + 1, m - 1);
    }
  }

  lemma {:induction false} Spawned(w: World, t: Trace, a: nat, job: Job, st: Sidecar, m: nat) returns (t': Trace)
    requires AwaitsEmpty(w, t, a, job, st) && m <= job.Window() && st.fragmentsDone + m <= job.Total()
    ensures Running(w, t', a, job) && Extends(t, t')
    ensures Now(t') == Now(t).(phase := Streaming(LoopFrom(job, st).(
                                 point := Awaiting, taken := st.fragmentsDone + m,
                                 slots := Fetching(st.fragmentsDone, m))))
    decreases m
  {
    hide NextStartup, NextAnytime, CollisionFree, Checksum, Stream;
    if m == 0 {
      t' := t;
      assert Fetching(st.fragmentsDone, 0) == [];
    } else {
      t' := Spawned(w, t, a, job, st, m - 1);
      var k := st.fragmentsDone;
      assert Fetching(k, m) == Fetching(k, m - 1) + [Slot(k + m - 1, InFlight)];
      t' := Stepped(w, t', a, job, Spawn, Now(t).(phase := Streaming(LoopFrom(job, st).(
        point := Awaiting, taken := k + m, slots := Fetching(k, m)))));
    }
  }

  /** The bound on concurrent fetches is reached: as many as configured, at least one, short of the list's end. */
  lemma WindowCanFill(w: World, job: Job, open: nat)
    requires job in w.jobs && job.Total() > 0
    requires open <= job.Total() && open <= if job.concurrency == 0 then 1 else job.concurrency
    ensures exists t: Trace ::
              && ValidTrace(w, t) && Now(t).phase.Streaming? && Now(t).phase.loop.job == job
              && CountInFlight(Now(t).phase.loop.slots) == open
  {
    hide Next, CollisionFree, CountInFlight;
    var t := Beginning();
    t := FreshStart(w, t, job);
    t := Spawned(w, t, 0, job, NewState(job.fingerprint, job.Total()), open);
    FetchingCounts(0, open);
  }

  // ---- Runs that leave nothing to the next one --------------------------------------------------------------

  /** One stopped run that began with progress, wrote the whole stream, and left none. */
  ghost predicate LosesEverything(w: World, t: Trace, a: nat, job: Job, last: Ending) {
    && Ran(w, t, a, job) && Now(t).phase == Idle(last)
    && Resumable(t.states[a].disk, job) > 0
    && Now(t).disk.output == Stream(job.pieces, job.Total())
    && Resumable(Now(t).disk, job) == 0
  }

  lemma CutShortIsResumable(job: Job, k: nat)
    requires 1 <= k < job.Total() && Stream(job.pieces, k) != []
    ensures Resumable(Disk(Stream(job.pieces, k), Some(Record(SavedAfter(job, k), job))), job) == k
  {
    hide Checksum, Stream, FromHeaders;
    assert Stream(job.pieces, k)[..|Stream(job.pieces, k)|] == Stream(job.pieces, k);
  }

  /** A full sidecar is never resumed from. */
  lemma FullIsNotResumable(d: Disk, job: Job)
    requires CountsAll(d, job)
    ensures Resumable(d, job) == 0
  {
  }

  /**
    A resumed run, of any list and from any fragment, is cancelled after it wrote and saved its last
    fragment, and the next run keeps nothing.
  */
  lemma LateCancelKeepsNothing(w: World, job: Job, k: nat)
    requires job in w.jobs && !Discriminates(w, job, job)
    requires 1 <= k < job.Total() && Stream(job.pieces, k) != []
    ensures exists t: Trace, a: nat :: LosesEverything(w, t, a, job, Cancelled(job))
  {
    hide Next, CollisionFree, Update, FromHeaders, Checksum, Discriminates, Resumable;
    var n := job.Total();
    var st := SavedAfter(job, k);
    var t0, a := ResumedAcross(w, job, job, k);
    CutShortIsResumable(job, k);
    var t := WroteUpTo(w, t0, a, job, st, n - 1, job.pieces);
    t := WroteAndSaved(w, t, a, job, AfterWrites(job, st, n - 1));
    t := CancelSeen(w, t, a, job, None);
    FullIsNotResumable(Now(t).disk, job);
    assert t.states[a] == t0.states[a];
    assert LosesEverything(w, t, a, job, Cancelled(job));
  }

  /** The same run, not cancelled, fails its final flush; the error may come although all bytes arrived. */
  lemma LateFlushKeepsNothing(w: World, job: Job, k: nat)
    requires job in w.jobs && !Discriminates(w, job, job)
    requires 1 <= k < job.Total() && Stream(job.pieces, k) != []
    ensures exists t: Trace, a: nat :: LosesEverything(w, t, a, job, Failure(job))
  {
    hide Next, CollisionFree, Update, FromHeaders, Checksum, Discriminates, Resumable;
    var n := job.Total();
    var st := SavedAfter(job, k);
    var t0, a := ResumedAcross(w, job, job, k);
    CutShortIsResumable(job, k);
    var t := WroteUpTo(w, t0, a, job, st, n, job.pieces);
    t := FlushFailed(w, t, a, job, AfterWrites(job, st, n), Now(t).disk.output);
    FullIsNotResumable(Now(t).disk, job);
    assert t.states[a] == t0.states[a];
    assert LosesEverything(w, t, a, job, Failure(job));
  }

  // ---- Fragments without bytes ------------------------------------------------------------------------------

  lemma {:induction false} StreamIsEmptyExactly(pieces: seq<Bytes>, k: nat)
    requires k <= |pieces|
    ensures Stream(pieces, k) == [] <==> forall i :: 0 <= i < k ==> pieces[i] == []
  {
    if k > 0 {
      StreamIsEmptyExactly(pieces, k - 1);
    }
  }

  /**
    The sidecar check for fragments without bytes, on any sidecar a history leaves: the job that saved it
    rejects it if and only if every fragment it counts was empty.
  */
  lemma RejectedAsImpossibleExactly(w: World, states: seq<Sys>, events: seq<Event>, n: nat)
    requires Identifiable(w) && History(w, states, events) && n < |states| && !Collided(states, events, n)
    requires states[n].disk.record.Some?
    ensures var r := states[n].disk.record.value;
      && r.doc.fragmentsDone <= r.job.Total()
      && (!Matches(r.doc, r.job) <==> forall i :: 0 <= i < r.doc.fragmentsDone ==> r.job.pieces[i] == [])
  {
    hide Next, Identifiable, Collided, Sourced, Checksum, Stream;
    InvariantHolds(w, states, events, n);
    var r := states[n].disk.record.value;
    assert Honest(w, r);
    StreamIsEmptyExactly(r.job.pieces, r.doc.fragmentsDone);
  }

  /** And histories leave such sidecars: any run cut short while all it wrote was empty. */
  lemma EmptyFragmentsAreForgotten(w: World, job: Job, k: nat)
    requires job in w.jobs && 1 <= k < job.Total()
    requires forall i :: 0 <= i < k ==> job.pieces[i] == []
    ensures exists t: Trace ::
              && ValidTrace(w, t) && Now(t).phase == Idle(Cancelled(job))
              && Now(t).disk.record.Some?
              && Now(t).disk.record.value.doc.fragmentsDone == k && Now(t).disk.record.value.doc.byteLen == 0
              && Gate(Now(t).disk, job).None?
  {
    hide Next, CollisionFree, FromHeaders, Checksum, Stream;
    var t := Beginning();
    t := CutShort(w, t, job, k);
    StreamIsEmptyExactly(job.pieces, k);
  }
}

/**
  Whether a recorded anchor validator still names what the origin serves
  (`crates/rdlp-downloader/src/revalidate.rs`, with the comparison rules of
  `crates/rdlp-http/src/validator.rs`).
*/
module Revalidate {
  import opened Wrappers

  datatype EntityTag = Strong(tag: string) | WeakOrMalformed

  /** A date field as received: the second it names, if it parses, and whether it is in the IMF-fixdate form. */
  datatype DateField = DateField(text: string, second: Option<int>, fixdate: bool)

  /** The validator fields of a response, and the second its `Date` names. */
  datatype Headers = Headers(etag: Option<EntityTag>, lastModified: Option<DateField>, date: Option<int>)

  /** Seconds between `Last-Modified` and `Date` that make the date a strong validator. */
  const LAST_MODIFIED_STRENGTH_GAP: int := 1

  datatype Validator = ETag(tag: string) | LastModified(date: string)

  datatype Mismatch = Missing | NotStrong | Different

  datatype Status = S200 | S206 | S416

  /**
    What the probe returned. `completeLength` is the total of a 206's `Content-Range`, when it discloses
    one; `unsatisfiedRange` is a `Content-Range` of the 416 form.
  */
  datatype Probe =
    | Answer(status: Status, completeLength: Option<nat>, unsatisfiedRange: bool, headers: Headers)
    | NoAnswer

  datatype Verdict = Confirmed | ValidatorChanged(why: Mismatch) | RangeUnsatisfiable

  datatype ProbeError = Unanswered

  /** The validator a response offers; a weak or malformed entity tag rules out the date as well. */
  function FromHeaders(h: Headers): Option<Validator> {
    match h.etag
    case Some(Strong(t)) => Some(ETag(t))
    case Some(WeakOrMalformed) => None
    case None =>
      if h.lastModified.None? || h.date.None? then None
      else
        var modified := h.lastModified.value;
        if modified.second.None? then None
        else if h.date.value - modified.second.value >= LAST_MODIFIED_STRENGTH_GAP && modified.fixdate
        then Some(LastModified(modified.text)) else None
  }

  function VerifyFull(v: Validator, h: Headers): Option<Mismatch> {
    match v
    case ETag(t) =>
      (match h.etag
       case None => Some(Missing)
       case Some(WeakOrMalformed) => Some(NotStrong)
       case Some(Strong(got)) => if got == t then None else Some(Different))
    case LastModified(d) =>
      (match h.lastModified
       case None => Some(Missing)
       case Some(got) => if got.text == d then None else Some(Different))
  }

  function VerifyPartial(v: Validator, h: Headers): Option<Mismatch> {
    if v.LastModified? && h.lastModified.None? then None else VerifyFull(v, h)
  }

  function ToVerdict(checked: Option<Mismatch>): Verdict {
    match checked
    case None => Confirmed
    case Some(why) => ValidatorChanged(why)
  }

  function RevalidateAnchor(v: Validator, p: Probe): Result<Verdict, ProbeError> {
    if p.NoAnswer? then Err(Unanswered)
    else if p.completeLength.Some? then Ok(ToVerdict(VerifyPartial(v, p.headers)))
    else if p.unsatisfiedRange then Ok(RangeUnsatisfiable)
    else Ok(ToVerdict(VerifyFull(v, p.headers)))
  }

  // ---- What an origin that follows RFC 9110 answers -----------------------------------------------------

  /** `v` is the origin's own current value of its field. */
  predicate Names(v: Validator, current: Headers) {
    match v
    case ETag(t) => current.etag == Some(Strong(t))
    case LastModified(d) => current.lastModified.Some? && current.lastModified.value.text == d
  }

  /** Every validator field the response carries is the current one. */
  predicate Faithful(sent: Headers, current: Headers) {
    && (sent.etag.Some? ==> sent.etag == current.etag)
    && (sent.lastModified.Some? ==> sent.lastModified == current.lastModified)
  }

  /**
    A truthful answer to the If-Range probe: a 206 only when the condition held (section 13.1.5 of
    RFC 9110), and only a 206 encloses a part, so only a 206 discloses a complete length.
  */
  predicate Truthful(current: Headers, v: Validator, p: Probe) {
    p.Answer? ==>
      && Faithful(p.headers, current)
      && (p.status == S206 ==> Names(v, current))
      && (p.completeLength.Some? ==> p.status == S206)
  }

  /** A truthful answer with everything the RFC asks for: a 206 says its length and repeats the entity tag
      (section 15.3.7), a 200 carries all its validators. */
  predicate Complete(current: Headers, v: Validator, p: Probe) {
    && p.Answer?
    && Truthful(current, v, p)
    && (p.status == S206 ==> p.completeLength.Some? && p.headers.etag == current.etag)
    && (p.status == S200 ==>
          !p.unsatisfiedRange && p.headers.etag == current.etag && p.headers.lastModified == current.lastModified)
    && (p.status == S416 ==> p.unsatisfiedRange)
  }

  /** A confirmation is never false: whatever a truthful origin answers, `Confirmed` means it still serves `v`. */
  lemma ConfirmedNamesCurrent(v: Validator, current: Headers, p: Probe)
    requires Truthful(current, v, p)
    requires RevalidateAnchor(v, p) == Ok(Confirmed)
    ensures Names(v, current)
  {
    if p.completeLength.Some? {
      assert p.status == S206;
    } else {
      assert VerifyFull(v, p.headers).None?;
    }
  }

  /**
    Against a complete answer the verdict is exact, except that a 416 confirms nothing: an unchanged
    representation is recognised and a changed one is refused.
  */
  lemma VerdictIsExact(v: Validator, current: Headers, p: Probe)
    requires Complete(current, v, p)
    ensures RevalidateAnchor(v, p) == Ok(Confirmed) <==> Names(v, current) && p.status != S416
  {
    if RevalidateAnchor(v, p) == Ok(Confirmed) {
      ConfirmedNamesCurrent(v, current, p);
    }
    if Names(v, current) && p.status == S206 && v.LastModified? && p.headers.lastModified.Some? {
      assert p.headers.lastModified == current.lastModified;
    }
  }

  /**
    A truthful 206 that withholds its complete length (`bytes 0-0/` followed by `*`) is judged by the rule for full
    responses, so an unchanged `Last-Modified` anchor is confirmed only if the 206 repeats the date,
    which section 15.3.7 of RFC 9110 advises against.
  */
  lemma UndisclosedLengthNeedsTheDate(d: string, current: Headers, p: Probe)
    requires p.Answer? && p.status == S206 && p.completeLength.None? && !p.unsatisfiedRange
    requires Truthful(current, LastModified(d), p)
    ensures RevalidateAnchor(LastModified(d), p) == Ok(Confirmed) <==> p.headers.lastModified.Some?
  {
    assert current.lastModified.Some? && current.lastModified.value.text == d;
  }

  /** An outage is an error and never a verdict, and every answer is a verdict. */
  lemma OnlySilenceIsAnError(v: Validator, p: Probe)
    ensures RevalidateAnchor(v, p).Err? <==> p.NoAnswer?
    ensures RevalidateAnchor(v, p) == Ok(RangeUnsatisfiable)
       <==> p.Answer? && p.completeLength.None? && p.unsatisfiedRange
  {
  }

  /** A refusal says what is wrong with the field of the anchor's kind. */
  lemma RefusalsSayWhy(v: Validator, h: Headers)
    ensures VerifyFull(v, h) == Some(Missing) <==> (if v.ETag? then h.etag.None? else h.lastModified.None?)
    ensures VerifyFull(v, h) == Some(NotStrong) <==> v.ETag? && h.etag == Some(WeakOrMalformed)
    ensures VerifyFull(v, h) == None <==> Names(v, h)
    ensures VerifyPartial(v, h) == VerifyFull(v, h) <==> v.ETag? || h.lastModified.Some?
  {
  }

  /** What a response offers is its own: its strong tag, or without any tag its date if that second is over. */
  lemma OfferedValidatorNamesItself(h: Headers)
    ensures FromHeaders(h).Some? ==> Names(FromHeaders(h).value, h)
    ensures h.etag.Some? ==> (FromHeaders(h).Some? <==> h.etag.value.Strong?)
    ensures h.etag.None? && FromHeaders(h).Some? ==>
      && h.lastModified.Some? && h.lastModified.value.second.Some? && h.date.Some?
      && h.lastModified.value.second.value < h.date.value
  {
  }
}

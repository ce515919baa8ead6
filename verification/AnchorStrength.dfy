/**
  Which validator a response offers as an anchor (`from_headers` in `crates/rdlp-http/src/validator.rs`), and
  why a `Last-Modified` counts only when it is at least one second older than the response
  (section 8.8.2.2 of RFC 9110).
*/
module AnchorStrength {
  import opened Wrappers
  import opened Revalidate

  // ---- What is offered, field by field ----------------------------------------------------------------------

  /** An entity tag decides alone: a strong one is offered, a weak or malformed one rules the date out too. */
  lemma TagDecidesAlone(h: Headers)
    requires h.etag.Some?
    ensures h.etag.value.WeakOrMalformed? ==> FromHeaders(h) == None
    ensures h.etag.value.Strong? ==> FromHeaders(h) == Some(ETag(h.etag.value.tag))
  {
  }

  /** Without a tag the date is offered, as received, exactly when its form is current and its second is over. */
  lemma DateOfferedExactly(h: Headers)
    requires h.etag.None?
    ensures FromHeaders(h).Some? <==>
      && h.lastModified.Some? && h.lastModified.value.fixdate
      && h.lastModified.value.second.Some? && h.date.Some?
      && h.date.value > h.lastModified.value.second.value
    ensures FromHeaders(h).Some? ==> FromHeaders(h) == Some(LastModified(h.lastModified.value.text))
  {
  }

  // ---- An origin whose revisions are stamped by the second -------------------------------------------------

  /** When each revision replaced the one before, in seconds and fractions of the origin's clock. */
  type Revisions = seq<real>

  ghost predicate InOrder(history: Revisions) {
    forall j, k :: 0 <= j < k < |history| ==> history[j] < history[k]
  }

  /** Revision `k` is what the origin serves at time `t`. */
  ghost predicate Serves(history: Revisions, t: real, k: nat) {
    && k < |history| && history[k] <= t
    && (k + 1 < |history| ==> t < history[k + 1])
  }

  /** How seconds are written: an IMF-fixdate is a second's own text. */
  type Calendar = int -> string

  ghost predicate Faithful(calendar: Calendar) {
    forall a: int, b: int :: calendar(a) == calendar(b) ==> a == b
  }

  /** The fields of a response sent at `t` while revision `k` is served, without an entity tag. */
  function Response(calendar: Calendar, history: Revisions, t: real, k: nat): Headers
    requires k < |history|
  {
    var modified := history[k].Floor;
    Headers(None, Some(DateField(calendar(modified), Some(modified), true)), Some(t.Floor))
  }

  lemma FloorGrows(a: real, b: real)
    ensures a <= b ==> a.Floor <= b.Floor
  {
  }

  lemma RevisionsGrow(history: Revisions, t: real, k: nat, t': real, k': nat)
    requires InOrder(history) && Serves(history, t, k) && Serves(history, t', k') && t <= t'
    ensures k <= k'
    ensures k < k' ==> t < history[k']
  {
  }

  /**
    A date taken from a response names, from then on, only the revision it came from: whatever changes follow,
    no later response that carries the same date serves anything else.
  */
  lemma OfferedDateNamesOneRevision(calendar: Calendar, history: Revisions, t: real, k: nat, t': real, k': nat)
    requires Faithful(calendar) && InOrder(history)
    requires Serves(history, t, k) && Serves(history, t', k') && t <= t'
    requires FromHeaders(Response(calendar, history, t, k)).Some?
    requires Names(FromHeaders(Response(calendar, history, t, k)).value, Response(calendar, history, t', k'))
    ensures k' == k
  {
    RevisionsGrow(history, t, k, t', k');
    FloorGrows(t, history[k']);
    assert calendar(history[k'].Floor) == calendar(history[k].Floor);
  }

  /** And so a confirmation by a truthful origin means that nothing has changed since the date was recorded. */
  lemma ConfirmedDateMeansUnchanged(calendar: Calendar, history: Revisions, t: real, k: nat, t': real, k': nat,
                                    p: Probe)
    requires Faithful(calendar) && InOrder(history)
    requires Serves(history, t, k) && Serves(history, t', k') && t <= t'
    requires FromHeaders(Response(calendar, history, t, k)).Some?
    requires var v := FromHeaders(Response(calendar, history, t, k)).value;
             Truthful(Response(calendar, history, t', k'), v, p) && RevalidateAnchor(v, p) == Ok(Confirmed)
    ensures k' == k
  {
    hide RevalidateAnchor, Truthful, FromHeaders, Names, InOrder;
    var v := FromHeaders(Response(calendar, history, t, k)).value;
    ConfirmedNamesCurrent(v, Response(calendar, history, t', k'), p);
    OfferedDateNamesOneRevision(calendar, history, t, k, t', k');
  }

  /** The revisions up to the one served at `t`, and then one at `t'`. */
  ghost predicate ChangesNext(history: Revisions, k: nat, t: real, t': real)
    requires k < |history|
  {
    t < t' && InOrder(history[..k + 1] + [t'])
  }

  /** Within its own second a date can come to name a second revision. */
  lemma FreshDateCanNameTwo(calendar: Calendar, history: Revisions, t: real, k: nat) returns (t': real)
    requires InOrder(history) && Serves(history, t, k) && t.Floor == history[k].Floor
    ensures ChangesNext(history, k, t, t')
    ensures var later := history[..k + 1] + [t'];
      && Serves(later, t, k) && Serves(later, t', k + 1)
      && Names(LastModified(calendar(history[k].Floor)), Response(calendar, later, t', k + 1))
  {
    var next := (t.Floor + 1) as real;
    t' := (t + next) / 2.0;
    assert t < t' < next;
    assert t'.Floor == t.Floor;
  }

  /**
    The rule is exact: a date is offered if and only if no change that could follow the response would carry
    the same date.
  */
  lemma OfferedExactlyWhenSafe(calendar: Calendar, history: Revisions, t: real, k: nat)
    requires Faithful(calendar) && InOrder(history) && Serves(history, t, k)
    ensures FromHeaders(Response(calendar, history, t, k)).Some? <==>
      forall t': real :: ChangesNext(history, k, t, t') ==>
        !Names(LastModified(calendar(history[k].Floor)),
               Response(calendar, history[..k + 1] + [t'], t', k + 1))
  {
    hide InOrder, Faithful;
    if t.Floor == history[k].Floor {
      var t' := FreshDateCanNameTwo(calendar, history, t, k);
    } else {
      FloorGrows(history[k], t);
      forall t': real | ChangesNext(history, k, t, t')
        ensures !Names(LastModified(calendar(history[k].Floor)),
                       Response(calendar, history[..k + 1] + [t'], t', k + 1))
      {
        FloorGrows(t, t');
        Apart(calendar, t'.Floor, history[k].Floor);
      }
    }
  }

  lemma Apart(calendar: Calendar, a: int, b: int)
    requires Faithful(calendar) && a != b
    ensures calendar(a) != calendar(b)
  {
  }
}

/**
  The resolved fragment list and the byte stream it stands for
  (`crates/rdlp-downloader/src/fragments.rs`).
*/
module Fragments {
  import opened Wrappers
  import opened Bits
  import opened Words

  /** Start and exclusive end, as `#EXT-X-BYTERANGE` and `#EXT-X-MAP` give them. */
  type Range = (U64, U64)

  /** A string, as its UTF-8 bytes. */
  type Str = s: Bytes | |s| < 0x1_0000_0000_0000_0000

  datatype Fragment = Fragment(
    url: Str,
    byteRange: Option<Range>,
    initUrl: Option<Str>,
    initByteRange: Option<Range>,
    duration: Option<U64>)  // the bits of the declared duration

  /** What an origin serves for a URL and a byte range. */
  type Content = (Str, Option<Range>) -> Bytes

  /** The fragment opens a new init group, so its init segment goes out in front of it. */
  predicate NeedsInit(frags: seq<Fragment>, i: nat)
    requires i < |frags|
  {
    frags[i].initUrl.Some? && (i == 0 || frags[i - 1].initUrl != frags[i].initUrl)
  }

  /** The bytes one task contributes: its init segment when planned, then the fragment. */
  function TaskBytes(task: (Fragment, bool), content: Content): Bytes {
    var (frag, needsInit) := task;
    (if needsInit && frag.initUrl.Some? then content(frag.initUrl.value, frag.initByteRange) else [])
    + content(frag.url, frag.byteRange)
  }

  function Pieces(frags: seq<Fragment>, content: Content): (ps: seq<Bytes>)
    ensures |ps| == |frags|
  {
    seq(|frags|, i requires 0 <= i < |frags| => TaskBytes((frags[i], NeedsInit(frags, i)), content))
  }

  /** The first `k` pieces, concatenated in list order: what a correct output holds after `k` fragments. */
  function Stream(pieces: seq<Bytes>, k: nat): Bytes
    requires k <= |pieces|
  {
    if k == 0 then [] else Stream(pieces, k - 1) + pieces[k - 1]
  }

  lemma {:induction false} StreamGrows(pieces: seq<Bytes>, j: nat, k: nat)
    requires j <= k <= |pieces|
    ensures Stream(pieces, j) <= Stream(pieces, k)
    decreases k
  {
    if j < k {
      StreamGrows(pieces, j, k - 1);
    }
  }

  // ---- Init segments and decode order -----------------------------------------------------------------

  /** What goes out on the stream, unit by unit. */
  datatype Unit = Init(url: Str, range: Option<Range>) | Media(index: nat)

  function Emitted(frags: seq<Fragment>, k: nat): seq<Unit>
    requires k <= |frags|
  {
    if k == 0 then []
    else
      var f := frags[k - 1];
      Emitted(frags, k - 1)
      + (if NeedsInit(frags, k - 1) then [Init(f.initUrl.value, f.initByteRange)] else [])
      + [Media(k - 1)]
  }

  /** The init segment a decoder holds after reading `units`. */
  function ActiveInit(units: seq<Unit>): Option<Unit>
    ensures ActiveInit(units).Some? ==> ActiveInit(units).value.Init?
  {
    if units == [] then None
    else if units[|units| - 1].Init? then Some(units[|units| - 1])
    else ActiveInit(units[..|units| - 1])
  }

  /** The decoder meets fragment `i` holding exactly the init segment the playlist declared for it. */
  predicate DecodesInOrder(frags: seq<Fragment>, i: nat)
    requires i < |frags|
  {
    frags[i].initUrl.Some? ==>
      ActiveInit(Emitted(frags, i + 1)) == Some(Init(frags[i].initUrl.value, frags[i].initByteRange))
  }

  /** Two neighbours name the same init URL but different byte ranges of it. */
  predicate SharesUrlNotRange(frags: seq<Fragment>, i: nat)
    requires i < |frags|
  {
    && i > 0
    && frags[i].initUrl.Some?
    && frags[i - 1].initUrl == frags[i].initUrl
    && frags[i - 1].initByteRange != frags[i].initByteRange
  }

  lemma ActiveInitAfter(frags: seq<Fragment>, i: nat)
    requires i < |frags|
    ensures ActiveInit(Emitted(frags, i + 1)) ==
            if NeedsInit(frags, i) then Some(Init(frags[i].initUrl.value, frags[i].initByteRange))
            else ActiveInit(Emitted(frags, i))
  {
    var before := Emitted(frags, i);
    var all := Emitted(frags, i + 1);
    if NeedsInit(frags, i) {
      var init := Init(frags[i].initUrl.value, frags[i].initByteRange);
      assert all[..|all| - 1] == before + [init];
      assert (before + [init])[..|before|] == before;
    } else {
      assert all[..|all| - 1] == before;
    }
  }

  /** Deduplicating by URL always leaves the decoder holding an init segment with the declared URL. */
  lemma {:induction false} ActiveInitUrl(frags: seq<Fragment>, i: nat)
    requires i < |frags| && frags[i].initUrl.Some?
    ensures ActiveInit(Emitted(frags, i + 1)).Some?
    ensures ActiveInit(Emitted(frags, i + 1)).value.url == frags[i].initUrl.value
  {
    ActiveInitAfter(frags, i);
    if !NeedsInit(frags, i) {
      ActiveInitUrl(frags, i - 1);
    }
  }

  /** What a decoder holds after the fragments before `i`. */
  function Held(frags: seq<Fragment>, i: nat): Option<Unit>
    requires i <= |frags|
  {
    ActiveInit(Emitted(frags, i))
  }

  /**
    An init group opens: a fragment declares an init segment and either stands first, or follows one that
    declares none, or the decoder does not hold an init segment of its URL.
  */
  predicate OpensGroup(frags: seq<Fragment>, i: nat)
    requires i < |frags|
  {
    && frags[i].initUrl.Some?
    && (i == 0 || frags[i - 1].initUrl.None?
        || (Held(frags, i).Some? ==> Held(frags, i).value.url != frags[i].initUrl.value))
  }

  /** An init segment goes out exactly where a group opens, so within a group it goes out once. */
  lemma InitOncePerGroup(frags: seq<Fragment>, i: nat)
    requires i < |frags|
    ensures NeedsInit(frags, i) <==> OpensGroup(frags, i)
  {
    if i > 0 && frags[i - 1].initUrl.Some? {
      ActiveInitUrl(frags, i - 1);
    }
  }

  // ---- Units and bytes ----------------------------------------------------------------------------------

  /** The bytes of one unit. */
  function UnitBytes(u: Unit, frags: seq<Fragment>, content: Content): Bytes {
    match u
    case Init(url, range) => content(url, range)
    case Media(k) => if k < |frags| then content(frags[k].url, frags[k].byteRange) else []
  }

  /** The units' bytes, one behind the other. */
  function Rendered(units: seq<Unit>, frags: seq<Fragment>, content: Content): Bytes {
    if units == [] then []
    else Rendered(units[..|units| - 1], frags, content) + UnitBytes(units[|units| - 1], frags, content)
  }

  lemma RenderedNext(units: seq<Unit>, u: Unit, frags: seq<Fragment>, content: Content)
    ensures Rendered(units + [u], frags, content) == Rendered(units, frags, content) + UnitBytes(u, frags, content)
  {
    assert (units + [u])[..|units|] == units;
  }

  /** One fragment adds its init segment, where one is due, and then its own bytes. */
  lemma PieceIsRendered(frags: seq<Fragment>, content: Content, k: nat)
    requires k < |frags|
    ensures Rendered(Emitted(frags, k + 1), frags, content)
         == Rendered(Emitted(frags, k), frags, content) + Pieces(frags, content)[k]
  {
    var f, before := frags[k], Emitted(frags, k);
    if NeedsInit(frags, k) {
      var init := Init(f.initUrl.value, f.initByteRange);
      RenderedNext(before, init, frags, content);
      RenderedNext(before + [init], Media(k), frags, content);
      assert Emitted(frags, k + 1) == before + [init] + [Media(k)];
    } else {
      RenderedNext(before, Media(k), frags, content);
      assert Emitted(frags, k + 1) == before + [Media(k)];
      assert [] + content(f.url, f.byteRange) == content(f.url, f.byteRange);
    }
  }

  /**
    The bytes of a download are those of the units in the order a decoder meets them: every init segment in
    front of the fragments it serves, each fetched by its own URL and range.
  */
  lemma {:induction false} StreamIsRendered(frags: seq<Fragment>, content: Content, k: nat)
    requires k <= |frags|
    ensures Stream(Pieces(frags, content), k) == Rendered(Emitted(frags, k), frags, content)
  {
    hide Pieces;
    if k > 0 {
      StreamIsRendered(frags, content, k - 1);
      PieceIsRendered(frags, content, k - 1);
    }
  }

  /** The fragments among some units. */
  function MediaOf(units: seq<Unit>): seq<nat> {
    if units == [] then []
    else MediaOf(units[..|units| - 1]) + if units[|units| - 1].Media? then [units[|units| - 1].index] else []
  }

  /** Every fragment goes out exactly once, in list order. */
  lemma {:induction false} EveryFragmentOnce(frags: seq<Fragment>, k: nat)
    requires k <= |frags|
    ensures MediaOf(Emitted(frags, k)) == seq(k, i => i)
  {
    if k > 0 {
      EveryFragmentOnce(frags, k - 1);
      var units, before := Emitted(frags, k), Emitted(frags, k - 1);
      assert units[|units| - 1] == Media(k - 1);
      if NeedsInit(frags, k - 1) {
        var init := Init(frags[k - 1].initUrl.value, frags[k - 1].initByteRange);
        assert units[..|units| - 1] == before + [init];
        assert (before + [init])[..|before|] == before;
      } else {
        assert units[..|units| - 1] == before;
      }
    }
  }

  // ---- The plan -------------------------------------------------------------------------------------------

  /** The single pass that plans the init fetches over the whole list, before any fragment is skipped. */
  method PlanInits(frags: seq<Fragment>) returns (tasks: seq<(Fragment, bool)>)
    ensures |tasks| == |frags|
    ensures forall i :: 0 <= i < |frags| ==> tasks[i] == (frags[i], NeedsInit(frags, i))
    ensures forall i :: 0 <= i < |frags| ==> (tasks[i].1 <==> OpensGroup(frags, i))
  {
    var lastInit: Option<Str> := None;
    tasks := [];
    for i := 0 to |frags|
      invariant |tasks| == i
      invariant i > 0 ==> lastInit == frags[i - 1].initUrl
      invariant i == 0 ==> lastInit == None
      invariant forall j :: 0 <= j < i ==> tasks[j] == (frags[j], NeedsInit(frags, j))
    {
      var frag := frags[i];
      var needsInit := frag.initUrl.Some? && frag.initUrl != lastInit;
      if needsInit {
        lastInit := frag.initUrl;
      } else if frag.initUrl.None? {
        lastInit := None;
      }
      tasks := tasks + [(frag, needsInit)];
    }
    forall i | 0 <= i < |frags| ensures NeedsInit(frags, i) <==> OpensGroup(frags, i) {
      InitOncePerGroup(frags, i);
    }
  }

  // ---- Decode order ---------------------------------------------------------------------------------------

  lemma {:induction false} DecodesInOrderUpTo(frags: seq<Fragment>, i: nat)
    requires i < |frags|
    requires forall j :: 0 <= j <= i ==> !SharesUrlNotRange(frags, j)
    ensures DecodesInOrder(frags, i)
  {
    ActiveInitAfter(frags, i);
    if frags[i].initUrl.Some? && !NeedsInit(frags, i) {
      assert !SharesUrlNotRange(frags, i);
      DecodesInOrderUpTo(frags, i - 1);
    }
  }

  /**
    The order section 4.3.2.5 of RFC 8216 asks for holds on every list except those in which a fragment
    moves to another byte range of the init URL its predecessor already used: the plan compares init URLs
    only, so such a fragment goes out under the predecessor's init segment.
  */
  lemma DecodeOrderExactly(frags: seq<Fragment>)
    ensures (forall i :: 0 <= i < |frags| ==> DecodesInOrder(frags, i))
       <==> (forall i :: 0 <= i < |frags| ==> !SharesUrlNotRange(frags, i))
  {
    if forall i :: 0 <= i < |frags| ==> !SharesUrlNotRange(frags, i) {
      forall i | 0 <= i < |frags| ensures DecodesInOrder(frags, i) {
        DecodesInOrderUpTo(frags, i);
      }
    }
    forall i | 0 <= i < |frags| && SharesUrlNotRange(frags, i)
      ensures exists j :: 0 <= j < |frags| && !DecodesInOrder(frags, j)
    {
      ActiveInitAfter(frags, i);
      assert !DecodesInOrder(frags, i - 1) || !DecodesInOrder(frags, i);
    }
  }

  /** For any media URLs, any init URL and any two ranges of it, a two-fragment list that decodes out of order. */
  lemma DecodeOrderCanFail(x: Str, y: Str, init: Str, r: Option<Range>, q: Option<Range>)
    requires r != q
    ensures exists frags: seq<Fragment> ::
              && |frags| == 2
              && frags[0].url == x && frags[1].url == y
              && frags[0].initUrl == frags[1].initUrl == Some(init)
              && frags[0].initByteRange == r && frags[1].initByteRange == q
              && DecodesInOrder(frags, 0) && !DecodesInOrder(frags, 1)
  {
    var a := Fragment(x, None, Some(init), r, None);
    var b := Fragment(y, None, Some(init), q, None);
    var frags := [a, b];
    ActiveInitAfter(frags, 0);
    ActiveInitAfter(frags, 1);
    assert DecodesInOrder(frags, 0) && !DecodesInOrder(frags, 1);
  }

  // ---- Progress total ---------------------------------------------------------------------------------

  function ExtrapolateTotal(expected: Option<nat>, totalBytes: nat, totalFrags: nat, fragsDone: nat): Option<nat> {
    if expected.Some? then expected
    else if fragsDone > 0 && totalBytes * totalFrags <= U64_MAX then Some(totalBytes * totalFrags / fragsDone)
    else None
  }

  /**
    Without a known length the estimate is absent exactly before the first fragment or on overflow. Otherwise it
    is the bytes so far scaled by the share of fragments done, to within one byte: never below the bytes already
    on disk, and exact once the last fragment is written. A known length is the estimate itself.
  */
  lemma EstimateIsHonest(totalBytes: nat, totalFrags: nat, fragsDone: nat)
    requires fragsDone <= totalFrags
    ensures var e := ExtrapolateTotal(None, totalBytes, totalFrags, fragsDone);
            && (e.None? <==> fragsDone == 0 || totalBytes * totalFrags > U64_MAX)
            && (e.Some? ==> e.value >= totalBytes)
            && (e.Some? && fragsDone == totalFrags ==> e.value == totalBytes)
            && (e.Some? ==> e.value * fragsDone <= totalBytes * totalFrags < (e.value + 1) * fragsDone)
    ensures forall known: nat :: ExtrapolateTotal(Some(known), totalBytes, totalFrags, fragsDone) == Some(known)
  {
    if fragsDone > 0 {
      QuotientBounds(totalBytes * totalFrags, fragsDone);
      DivAtLeast(totalBytes, totalFrags, fragsDone);
    }
  }

  lemma QuotientBounds(x: nat, d: nat)
    requires d > 0
    ensures x / d * d <= x < (x / d + 1) * d
  {
    Distribute(x / d, 1, d);
    assert x == x / d * d + x % d;
  }

  lemma DivAtLeast(a: nat, n: nat, d: nat)
    requires 0 < d <= n
    ensures a * n / d >= a
    ensures d == n ==> a * n / d == a
  {
    MulMonotone(d, n, a);
    assert a * d == d * a && a * n == n * a;
    QuotientAtLeast(a * n, a, d);
    if d == n {
      DivUnique(a * n, d, a, 0);
    }
  }

  lemma QuotientAtLeast(x: nat, a: nat, d: nat)
    requires 0 < d && a * d <= x
    ensures x / d >= a
  {
    var q := x / d;
    assert x == q * d + x % d;
    if q < a {
      MulMonotone(q + 1, a, d);
      Distribute(q, 1, d);
    }
  }
}

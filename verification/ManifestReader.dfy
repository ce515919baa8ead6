/**
  A reader for the bytes the manifest fingerprint is taken over (`crates/rdlp-downloader/src/fingerprint.rs`,
  `crates/rdlp-downloader/src/fragments/state.rs`): the fields in their order, tags of one byte, numbers in
  eight bytes with the lowest first, strings behind their length.
*/
module ManifestReader {
  import opened Wrappers
  import opened Bits
  import opened Words
  import opened Fragments
  import opened Fingerprint

  /** What was read and the bytes that follow it; nothing when the bytes have another form. */
  type Reading<T> = Option<(T, Bytes)>

  function Number(s: Bytes): nat {
    if s == [] then 0 else s[0] + 0x100 * Number(s[1..])
  }

  function ReadU64(s: Bytes): Reading<U64> {
    if |s| < 8 || Number(s[..8]) >= LONG then None else Some((Number(s[..8]), s[8..]))
  }

  function ReadStr(s: Bytes): Reading<Str> {
    match ReadU64(s)
    case None => None
    case Some((n, rest)) => if |rest| < n then None else Some((rest[..n], rest[n..]))
  }

  function ReadRange(s: Bytes): Reading<Range> {
    match ReadU64(s)
    case None => None
    case Some((a, rest)) =>
      match ReadU64(rest)
      case None => None
      case Some((b, rest)) => Some(((a, b), rest))
  }

  /** A tag of zero for nothing, of one before something that `read` can read. */
  function ReadOpt<T>(s: Bytes, read: Bytes -> Reading<T>): Reading<Option<T>> {
    if s == [] || s[0] > 1 then None
    else if s[0] == 0 then Some((None, s[1..]))
    else
      match read(s[1..])
      case None => None
      case Some((v, rest)) => Some((Some(v), rest))
  }

  /** URL, byte range, init URL, init byte range, duration. */
  function ReadFragment(s: Bytes): Reading<Fragment> {
    match ReadOpt(s, ReadStr)
    case None => None
    case Some((url, s)) =>
      match ReadOpt(s, ReadRange)
      case None => None
      case Some((byteRange, s)) =>
        match ReadOpt(s, ReadStr)
        case None => None
        case Some((initUrl, s)) =>
          match ReadOpt(s, ReadRange)
          case None => None
          case Some((initByteRange, s)) =>
            match ReadOpt(s, ReadU64)
            case None => None
            case Some((duration, s)) =>
              if url.None? then None
              else Some((Fragment(url.value, byteRange, initUrl, initByteRange, duration), s))
  }

  function ReadFragments(s: Bytes, n: nat): Reading<seq<Fragment>>
    decreases n
  {
    if n == 0 then Some(([], s))
    else
      match ReadFragment(s)
      case None => None
      case Some((f, rest)) =>
        match ReadFragments(rest, n - 1)
        case None => None
        case Some((fs, rest)) => Some(([f] + fs, rest))
  }

  /** A count, as many fragments, and nothing behind them. */
  function ReadManifest(s: Bytes): Option<seq<Fragment>> {
    match ReadU64(s)
    case None => None
    case Some((n, rest)) =>
      match ReadFragments(rest, n)
      case None => None
      case Some((fs, rest)) => if rest == [] then Some(fs) else None
  }

  // ---- What was fed is what is read -------------------------------------------------------------------------

  lemma {:induction false} NumberOf(k: nat, v: nat)
    requires v < Pow2(8 * k)
    ensures Number(LittleEndian(k, v)) == v
    decreases k
  {
    hide Pow2;
    if k == 0 {
      Pow2Steps(0);
    } else {
      LittleEndianStep(k, v);
      NumberOf(k - 1, v / 0x100);
    }
  }

  lemma U64Reads(v: U64, rest: Bytes)
    ensures ReadU64(EncodeU64(v) + rest) == Some((v, rest))
  {
    hide Pow2, LittleEndian, Number;
    Pow2Values();
    NumberOf(8, v);
    assert (EncodeU64(v) + rest)[..8] == EncodeU64(v) && (EncodeU64(v) + rest)[8..] == rest;
  }

  lemma StrReads(s: Str, rest: Bytes)
    ensures ReadStr(EncodeU64(|s|) + s + rest) == Some((s, rest))
  {
    hide EncodeU64, ReadU64;
    Assoc(EncodeU64(|s|), s, rest);
    U64Reads(|s|, s + rest);
    assert (s + rest)[..|s|] == s && (s + rest)[|s|..] == rest;
  }

  lemma RangeReads(r: Range, rest: Bytes)
    ensures ReadRange(EncodeU64(r.0) + EncodeU64(r.1) + rest) == Some((r, rest))
  {
    hide EncodeU64, ReadU64;
    Assoc(EncodeU64(r.0), EncodeU64(r.1), rest);
    U64Reads(r.0, EncodeU64(r.1) + rest);
    U64Reads(r.1, rest);
  }

  /** A tag and what stands behind it. */
  lemma TagReads<T>(body: Bytes, rest: Bytes, read: Bytes -> Reading<T>)
    ensures ReadOpt([0] + rest, read) == Some((None, rest))
    ensures read(body + rest).Some? ==>
      ReadOpt([1] + body + rest, read) == Some((Some(read(body + rest).value.0), read(body + rest).value.1))
  {
    assert ([0] + rest)[1..] == rest;
    assert ([1] + body + rest)[1..] == body + rest;
  }

  lemma OptStrReads(v: Option<Str>, rest: Bytes)
    ensures ReadOpt(EncodeOptStr(v) + rest, ReadStr) == Some((v, rest))
  {
    hide EncodeU64, ReadStr, ReadOpt;
    TagReads([], rest, ReadStr);
    if v.Some? {
      StrReads(v.value, rest);
      TagReads(EncodeU64(|v.value|) + v.value, rest, ReadStr);
    }
  }

  lemma OptRangeReads(v: Option<Range>, rest: Bytes)
    ensures ReadOpt(EncodeOptRange(v) + rest, ReadRange) == Some((v, rest))
  {
    hide EncodeU64, ReadRange, ReadOpt;
    TagReads([], rest, ReadRange);
    if v.Some? {
      RangeReads(v.value, rest);
      TagReads(EncodeU64(v.value.0) + EncodeU64(v.value.1), rest, ReadRange);
    }
  }

  lemma OptU64Reads(v: Option<U64>, rest: Bytes)
    ensures ReadOpt(EncodeOptU64(v) + rest, ReadU64) == Some((v, rest))
  {
    hide EncodeU64, ReadU64, ReadOpt;
    TagReads([], rest, ReadU64);
    if v.Some? {
      U64Reads(v.value, rest);
      TagReads(EncodeU64(v.value), rest, ReadU64);
    }
  }

  lemma FragmentReads(f: Fragment, rest: Bytes)
    ensures ReadFragment(EncodeFragment(f) + rest) == Some((f, rest))
  {
    hide EncodeOptStr, EncodeOptRange, EncodeOptU64, ReadOpt, ReadStr, ReadRange, ReadU64;
    var u, b, i, m, d := EncodeOptStr(Some(f.url)), EncodeOptRange(f.byteRange), EncodeOptStr(f.initUrl),
      EncodeOptRange(f.initByteRange), EncodeOptU64(f.duration);
    assert EncodeFragment(f) + rest == u + (b + (i + (m + (d + rest))));
    OptStrReads(Some(f.url), b + (i + (m + (d + rest))));
    OptRangeReads(f.byteRange, i + (m + (d + rest)));
    OptStrReads(f.initUrl, m + (d + rest));
    OptRangeReads(f.initByteRange, d + rest);
    OptU64Reads(f.duration, rest);
  }

  /** The fragments with their URLs reduced to paths. */
  function ReducedAll(parse: UrlParser, frags: seq<Fragment>): seq<Fragment> {
    seq(|frags|, i requires 0 <= i < |frags| => Reduced(parse, frags[i]))
  }

  lemma {:induction false} FragmentsRead(parse: UrlParser, frags: seq<Fragment>)
    ensures ReadFragments(EncodeFragments(parse, frags), |frags|) == Some((ReducedAll(parse, frags), []))
    decreases |frags|
  {
    hide ReadFragment, EncodeFragment, Reduced;
    if frags != [] {
      FragmentReads(Reduced(parse, frags[0]), EncodeFragments(parse, frags[1..]));
      FragmentsRead(parse, frags[1..]);
      assert ReducedAll(parse, frags) == [Reduced(parse, frags[0])] + ReducedAll(parse, frags[1..]);
    } else {
      assert ReducedAll(parse, frags) == [];
    }
  }

  /** A URL as the fingerprint sees it: the path of an absolute one, any other as it stands. */
  predicate SeenAs(parse: UrlParser, url: Str, seen: Str) {
    if parse(url).Some? then parse(url) == Some(seen) else seen == url
  }

  /** Everything of `f`, its URLs as the fingerprint sees them. */
  predicate SeenFragment(parse: UrlParser, f: Fragment, seen: Fragment) {
    && SeenAs(parse, f.url, seen.url)
    && seen.byteRange == f.byteRange
    && (f.initUrl.None? <==> seen.initUrl.None?)
    && (f.initUrl.Some? && seen.initUrl.Some? ==> SeenAs(parse, f.initUrl.value, seen.initUrl.value))
    && seen.initByteRange == f.initByteRange
    && seen.duration == f.duration
  }

  lemma ReducedIsSeen(parse: UrlParser, f: Fragment)
    ensures SeenFragment(parse, f, Reduced(parse, f))
  {
  }

  lemma ManifestReads(parse: UrlParser, frags: seq<Fragment>)
    requires |frags| < LONG
    ensures ReadManifest(Manifest(parse, frags)) == Some(ReducedAll(parse, frags))
  {
    hide EncodeU64, ReadU64, EncodeFragments, ReadFragments, ReducedAll;
    U64Reads(|frags|, EncodeFragments(parse, frags));
    FragmentsRead(parse, frags);
  }

  /** Reading the manifest's bytes gives back every field of every fragment, URLs reduced to their paths. */
  lemma ManifestReadsBack(parse: UrlParser, frags: seq<Fragment>)
    requires |frags| < LONG
    ensures var read := ReadManifest(Manifest(parse, frags));
      && read.Some? && |read.value| == |frags|
      && forall i :: 0 <= i < |frags| ==> SeenFragment(parse, frags[i], read.value[i])
  {
    hide ReadManifest, Manifest, SeenFragment, Reduced;
    ManifestReads(parse, frags);
    forall i | 0 <= i < |frags| ensures SeenFragment(parse, frags[i], ReducedAll(parse, frags)[i]) {
      ReducedIsSeen(parse, frags[i]);
    }
  }
}

/**
  The FNV-1a-64 manifest fingerprint (`crates/rdlp-downloader/src/fingerprint.rs`, and
  `fragment_fingerprint` in `crates/rdlp-downloader/src/fragments/state.rs`).
*/
module Fingerprint {
  import opened Wrappers
  import opened Bits
  import opened Words
  import opened ByteFold
  import opened Fragments

  const OFFSET_BASIS: U64 := 0xcbf2_9ce4_8422_2325
  const PRIME: U64 := 0x0000_0100_0000_01b3

  function Step(h: U64, b: Byte): U64 {
    Xor64(h, b) * PRIME % LONG
  }

  function Feed(h: U64, s: Bytes): U64 {
    Fold(Step, h, s)
  }

  // ---- FNV-1a separates near misses -------------------------------------------------------------------

  /** The prime is odd, so multiplying by it permutes the words. */
  lemma PrimeIsInvertible(x: U64, y: U64)
    requires x * PRIME % LONG == y * PRIME % LONG
    ensures x == y
  {
    var d := x - y;
    var m := x * PRIME / LONG - y * PRIME / LONG;
    assert d * PRIME == m * LONG;
    // 0xce96_5057_aff6_957b is the inverse: times PRIME it is 887285111055 * LONG + 1.
    var k := m * 0xce96_5057_aff6_957b - d * 887285111055;
    assert d == k * LONG;
    assert -LONG < d < LONG;
    assert k == 0;
  }

  /** The inverse of the prime modulo 2^64. */
  const PRIME_INVERSE: U64 := 0xce96_5057_aff6_957b

  /** Takes the bytes of `s` back out of a hash, last one first: divide by the prime, then the exclusive or. */
  function Unfeed(h: U64, s: Bytes): U64
    decreases |s|
  {
    if s == [] then h else Unfeed(Xor64(h * PRIME_INVERSE % LONG, s[|s| - 1]), s[..|s| - 1])
  }

  lemma PrimeUndone(x: U64)
    ensures x * PRIME % LONG * PRIME_INVERSE % LONG == x
  {
    var q := x * PRIME / LONG;
    var y := x * PRIME % LONG;
    assert x * PRIME == q * LONG + y;
    var k := x * 887285111055 - q * PRIME_INVERSE;
    assert y * PRIME_INVERSE == x + k * LONG;
    DivUnique(y * PRIME_INVERSE, LONG, k, x);
  }

  lemma StepUndone(h: U64, b: Byte)
    ensures Xor64(Step(h, b) * PRIME_INVERSE % LONG, b) == h
  {
    hide Xor, Pow2;
    PrimeUndone(Xor64(h, b));
    Pow2Values();
    XorTwice(64, h, b);
  }

  /** The exclusive or comes before the multiplication, so a hash is unwound byte by byte from the end. */
  lemma {:induction false} FeedIsUndone(h: U64, s: Bytes)
    ensures Unfeed(Feed(h, s), s) == h
    decreases |s|
  {
    hide Step, Xor64;
    if s != [] {
      var n := |s| - 1;
      FoldConcat(Step, h, s[..n], [s[n]]);
      assert s == s[..n] + [s[n]];
      OneByteFolded(Feed(h, s[..n]), s[n]);
      StepUndone(Feed(h, s[..n]), s[n]);
      FeedIsUndone(h, s[..n]);
    }
  }

  lemma OneByteFolded(h: U64, b: Byte)
    ensures Fold(Step, h, [b]) == Step(h, b)
  {
    hide Step;
    assert [b][1..] == [];
    assert Fold(Step, Step(h, b), []) == Step(h, b);
  }

  /** The published vector: the FNV-1a-64 of the letter a. */
  lemma HashOfTheLetterA()
    ensures Feed(OFFSET_BASIS, [0x61]) == 0xaf63_dc4c_8601_ec8c
  {
    hide Xor, Pow2;
    Pow2Values();
    OneByteFolded(OFFSET_BASIS, 0x61);
    LowBytesMeet();
    XorZero(64, 0x61);
    XorSplits(64, 0x61, 0x25, 8, 0xcb_f29c_e484_2223);
    XorSplits(64, 0, 0x44, 8, 0xcb_f29c_e484_2223);
    XorCommutes(64, OFFSET_BASIS, 0x61);
    XorCommutes(64, 0, 0x44);
    XorZero(64, 0x44);
    XorCommutes(64, 0, 0xcbf2_9ce4_8422_2344);
    XorZero(64, 0xcbf2_9ce4_8422_2344);
  }

  lemma LowBytesMeet()
    ensures Xor(64, 0x61, 0x25) == 0x44
  {
    hide Xor, Pow2;
    XorZero(57, 0);
    OneDigit(58, 0x1, 0x0, 0x0);
    OneDigit(59, 0x3, 0x1, 0x1);
    OneDigit(60, 0x6, 0x2, 0x2);
    OneDigit(61, 0xc, 0x4, 0x4);
    OneDigit(62, 0x18, 0x9, 0x8);
    OneDigit(63, 0x30, 0x12, 0x11);
    OneDigit(64, 0x61, 0x25, 0x22);
  }

  lemma OneDigit(n: nat, a: nat, b: nat, above: nat)
    requires n > 0 && Xor(n - 1, a / 2, b / 2) == above
    ensures Xor(n, a, b) == 2 * above + (a % 2 + b % 2) % 2
  {
    hide Xor, Pow2;
    XorDigits(n, a, b);
  }

  lemma StepPermutesStates()
    ensures PermutesStates(Step)
  {
    forall c: U64, d: U64, b: Byte | Step(c, b) == Step(d, b) ensures c == d {
      PrimeIsInvertible(Xor64(c, b), Xor64(d, b));
      Pow2Values();
      XorInjective(64, c, d, b);
    }
  }

  lemma StepSeparatesBytes()
    ensures SeparatesBytes(Step)
  {
    forall c: U64, b: Byte, d: Byte | Step(c, b) == Step(c, d) ensures b == d {
      PrimeIsInvertible(Xor64(c, b), Xor64(c, d));
      Pow2Values();
      XorInjectiveRight(64, c, b, d);
    }
  }

  /** Two streams of one length that differ in exactly one byte never share a fingerprint. */
  lemma OneByteChangesTheFingerprint(s: Bytes, k: nat, b: Byte)
    requires k < |s| && b != s[k]
    ensures Feed(OFFSET_BASIS, s[k := b]) != Feed(OFFSET_BASIS, s)
  {
    hide Step;
    StepPermutesStates();
    StepSeparatesBytes();
    OneByteChangeIsDetected(Step, OFFSET_BASIS, s, k, b);
  }

  // ---- Framing: what each feeder feeds ----------------------------------------------------------------

  /** The low `k` bytes of `v`, least significant first. */
  function LittleEndian(k: nat, v: nat): (s: Bytes)
    ensures |s| == k
  {
    if k == 0 then [] else [v % 0x100] + LittleEndian(k - 1, v / 0x100)
  }

  function EncodeU64(v: U64): Bytes {
    LittleEndian(8, v)
  }

  function EncodeOptU64(v: Option<U64>): Bytes {
    match v
    case None => [0]
    case Some(v) => [1] + EncodeU64(v)
  }

  function EncodeOptRange(r: Option<Range>): Bytes {
    match r
    case None => [0]
    case Some((a, b)) => [1] + (EncodeU64(a) + EncodeU64(b))
  }

  function EncodeOptStr(s: Option<Str>): Bytes {
    match s
    case None => [0]
    case Some(s) => [1] + (EncodeU64(|s|) + s)
  }

  /** `parse` gives the path of an absolute URL and nothing for any other string. */
  type UrlParser = Str -> Option<Str>

  function UrlPath(parse: UrlParser, url: Str): Str {
    var path := parse(url);
    if path.Some? then path.value else url
  }

  function OptUrlPath(parse: UrlParser, url: Option<Str>): Option<Str> {
    match url
    case None => None
    case Some(u) => Some(UrlPath(parse, u))
  }

  /** A fragment with its URLs reduced to paths. */
  function Reduced(parse: UrlParser, f: Fragment): Fragment {
    f.(url := UrlPath(parse, f.url), initUrl := OptUrlPath(parse, f.initUrl))
  }

  function EncodeInit(f: Fragment): Bytes {
    EncodeOptStr(f.initUrl) + (EncodeOptRange(f.initByteRange) + EncodeOptU64(f.duration))
  }

  /** The bytes fed for one already reduced fragment. */
  function EncodeFragment(f: Fragment): Bytes {
    EncodeOptStr(Some(f.url)) + (EncodeOptRange(f.byteRange) + EncodeInit(f))
  }

  function EncodeFragments(parse: UrlParser, frags: seq<Fragment>): Bytes {
    if frags == [] then [] else EncodeFragment(Reduced(parse, frags[0])) + EncodeFragments(parse, frags[1..])
  }

  /** The bytes fed for a whole list: its length, then each fragment. */
  function Manifest(parse: UrlParser, frags: seq<Fragment>): Bytes
    requires |frags| < LONG
  {
    EncodeU64(|frags|) + EncodeFragments(parse, frags)
  }

  // ---- No encoding is a prefix of another: adjacent fields cannot alias -------------------------------

  lemma LittleEndianStep(k: nat, v: nat)
    requires k > 0 && v < Pow2(8 * k)
    ensures LittleEndian(k, v)[0] == v % 0x100 && LittleEndian(k, v)[1..] == LittleEndian(k - 1, v / 0x100)
    ensures 0 <= v / 0x100 < Pow2(8 * (k - 1))
  {
    Pow2Adds(8, 8 * (k - 1));
    Pow2Values();
    assert 8 + 8 * (k - 1) == 8 * k;
    QuotientBelow(v, 0x100, Pow2(8 * (k - 1)));
  }

  lemma {:induction false} LittleEndianInjective(k: nat, v: nat, w: nat)
    requires v < Pow2(8 * k) && w < Pow2(8 * k)
    requires LittleEndian(k, v) == LittleEndian(k, w)
    ensures v == w
  {
    if k > 0 {
      LittleEndianStep(k, v);
      LittleEndianStep(k, w);
      LittleEndianInjective(k - 1, v / 0x100, w / 0x100);
    }
  }

  /** Equal concatenations with heads of equal length split into equal parts. */
  lemma SplitAt(a: Bytes, x: Bytes, b: Bytes, y: Bytes)
    requires a + x == b + y && |a| == |b|
    ensures a == b && x == y
  {
    assert a == (a + x)[..|a|] && x == (a + x)[|a|..];
    assert b == (b + y)[..|b|] && y == (b + y)[|b|..];
  }

  lemma U64Frame(v: U64, x: Bytes, w: U64, y: Bytes)
    requires EncodeU64(v) + x == EncodeU64(w) + y
    ensures v == w && x == y
  {
    SplitAt(EncodeU64(v), x, EncodeU64(w), y);
    Pow2Values();
    LittleEndianInjective(8, v, w);
  }

  /** Equal concatenations agree on their tag byte and on what follows it. */
  lemma TagFrame(a: Bytes, x: Bytes, b: Bytes, y: Bytes)
    requires a != [] && b != [] && a + x == b + y
    ensures a[0] == b[0] && a[1..] + x == b[1..] + y
  {
    assert (a + x)[0] == a[0] && (b + y)[0] == b[0];
    assert (a + x)[1..] == a[1..] + x && (b + y)[1..] == b[1..] + y;
  }

  lemma Assoc(a: Bytes, b: Bytes, x: Bytes)
    ensures a + b + x == a + (b + x)
  {
  }

  lemma OptU64Frame(v: Option<U64>, x: Bytes, w: Option<U64>, y: Bytes)
    requires EncodeOptU64(v) + x == EncodeOptU64(w) + y
    ensures v == w && x == y
  {
    TagFrame(EncodeOptU64(v), x, EncodeOptU64(w), y);
    if v.Some? {
      assert EncodeOptU64(v)[1..] == EncodeU64(v.value) && EncodeOptU64(w)[1..] == EncodeU64(w.value);
      U64Frame(v.value, x, w.value, y);
    } else {
      assert [] + x == x && [] + y == y;
    }
  }

  lemma RangeFrame(a: U64, b: U64, x: Bytes, c: U64, d: U64, y: Bytes)
    requires EncodeU64(a) + EncodeU64(b) + x == EncodeU64(c) + EncodeU64(d) + y
    ensures a == c && b == d && x == y
  {
    Assoc(EncodeU64(a), EncodeU64(b), x);
    Assoc(EncodeU64(c), EncodeU64(d), y);
    U64Frame(a, EncodeU64(b) + x, c, EncodeU64(d) + y);
    U64Frame(b, x, d, y);
  }

  lemma OptRangeFrame(v: Option<Range>, x: Bytes, w: Option<Range>, y: Bytes)
    requires EncodeOptRange(v) + x == EncodeOptRange(w) + y
    ensures v == w && x == y
  {
    TagFrame(EncodeOptRange(v), x, EncodeOptRange(w), y);
    if v.Some? {
      var (a, b) := v.value;
      var (c, d) := w.value;
      assert EncodeOptRange(v)[1..] == EncodeU64(a) + EncodeU64(b);
      assert EncodeOptRange(w)[1..] == EncodeU64(c) + EncodeU64(d);
      RangeFrame(a, b, x, c, d, y);
    } else {
      assert [] + x == x && [] + y == y;
    }
  }

  lemma StrFrame(s: Str, x: Bytes, t: Str, y: Bytes)
    requires EncodeU64(|s|) + s + x == EncodeU64(|t|) + t + y
    ensures s == t && x == y
  {
    Assoc(EncodeU64(|s|), s, x);
    Assoc(EncodeU64(|t|), t, y);
    U64Frame(|s|, s + x, |t|, t + y);
    SplitAt(s, x, t, y);
  }

  lemma OptStrFrame(v: Option<Str>, x: Bytes, w: Option<Str>, y: Bytes)
    requires EncodeOptStr(v) + x == EncodeOptStr(w) + y
    ensures v == w && x == y
  {
    TagFrame(EncodeOptStr(v), x, EncodeOptStr(w), y);
    if v.Some? {
      var s, t := v.value, w.value;
      assert EncodeOptStr(v)[1..] == EncodeU64(|s|) + s;
      assert EncodeOptStr(w)[1..] == EncodeU64(|t|) + t;
      StrFrame(s, x, t, y);
    } else {
      assert [] + x == x && [] + y == y;
    }
  }

  lemma InitFrame(f: Fragment, x: Bytes, g: Fragment, y: Bytes)
    requires EncodeInit(f) + x == EncodeInit(g) + y
    ensures f.initUrl == g.initUrl && f.initByteRange == g.initByteRange && f.duration == g.duration && x == y
  {
    var fd, gd := EncodeOptU64(f.duration), EncodeOptU64(g.duration);
    var fr, gr := EncodeOptRange(f.initByteRange), EncodeOptRange(g.initByteRange);
    Assoc(EncodeOptStr(f.initUrl), fr + fd, x);
    Assoc(EncodeOptStr(g.initUrl), gr + gd, y);
    OptStrFrame(f.initUrl, fr + fd + x, g.initUrl, gr + gd + y);
    Assoc(fr, fd, x);
    Assoc(gr, gd, y);
    OptRangeFrame(f.initByteRange, fd + x, g.initByteRange, gd + y);
    OptU64Frame(f.duration, x, g.duration, y);
  }

  lemma FragmentFrame(f: Fragment, x: Bytes, g: Fragment, y: Bytes)
    requires EncodeFragment(f) + x == EncodeFragment(g) + y
    ensures f == g && x == y
  {
    var fb, gb := EncodeOptRange(f.byteRange), EncodeOptRange(g.byteRange);
    Assoc(EncodeOptStr(Some(f.url)), fb + EncodeInit(f), x);
    Assoc(EncodeOptStr(Some(g.url)), gb + EncodeInit(g), y);
    OptStrFrame(Some(f.url), fb + EncodeInit(f) + x, Some(g.url), gb + EncodeInit(g) + y);
    Assoc(fb, EncodeInit(f), x);
    Assoc(gb, EncodeInit(g), y);
    OptRangeFrame(f.byteRange, EncodeInit(f) + x, g.byteRange, EncodeInit(g) + y);
    InitFrame(f, x, g, y);
  }

  /** The two lists agree in everything the fingerprint looks at. */
  predicate SameManifest(parse: UrlParser, fs: seq<Fragment>, gs: seq<Fragment>) {
    |fs| == |gs| && forall i :: 0 <= i < |fs| ==> Reduced(parse, fs[i]) == Reduced(parse, gs[i])
  }

  lemma SameManifestTail(parse: UrlParser, fs: seq<Fragment>, gs: seq<Fragment>)
    requires fs != [] && gs != []
    ensures SameManifest(parse, fs, gs)
       <==> Reduced(parse, fs[0]) == Reduced(parse, gs[0]) && SameManifest(parse, fs[1..], gs[1..])
  {
    if Reduced(parse, fs[0]) == Reduced(parse, gs[0]) && SameManifest(parse, fs[1..], gs[1..]) {
      forall i | 0 <= i < |fs| ensures Reduced(parse, fs[i]) == Reduced(parse, gs[i]) {
        if i > 0 {
          assert fs[i] == fs[1..][i - 1] && gs[i] == gs[1..][i - 1];
        }
      }
    }
  }

  lemma {:induction false} FragmentsFrame(parse: UrlParser, fs: seq<Fragment>, gs: seq<Fragment>)
    requires |fs| == |gs|
    ensures EncodeFragments(parse, fs) == EncodeFragments(parse, gs) <==> SameManifest(parse, fs, gs)
    decreases |fs|
  {
    if fs != [] {
      FragmentsFrame(parse, fs[1..], gs[1..]);
      SameManifestTail(parse, fs, gs);
      var f, g := Reduced(parse, fs[0]), Reduced(parse, gs[0]);
      var x, y := EncodeFragments(parse, fs[1..]), EncodeFragments(parse, gs[1..]);
      if EncodeFragment(f) + x == EncodeFragment(g) + y {
        FragmentFrame(f, x, g, y);
      }
    }
  }

  /** Two lists feed the same byte stream exactly when their path-reduced fields all agree. */
  lemma ManifestIsInjective(parse: UrlParser, fs: seq<Fragment>, gs: seq<Fragment>)
    requires |fs| < LONG && |gs| < LONG
    ensures Manifest(parse, fs) == Manifest(parse, gs) <==> SameManifest(parse, fs, gs)
  {
    if Manifest(parse, fs) == Manifest(parse, gs) {
      U64Frame(|fs|, EncodeFragments(parse, fs), |gs|, EncodeFragments(parse, gs));
    }
    if |fs| == |gs| {
      FragmentsFrame(parse, fs, gs);
    }
  }

  // ---- The hasher ---------------------------------------------------------------------------------------

  class Fnv1a64 {
    var h: U64

    constructor ()
      ensures h == OFFSET_BASIS
    {
      h := OFFSET_BASIS;
    }

    method FeedBytes(bytes: Bytes)
      modifies this
      ensures h == Feed(old(h), bytes)
    {
      for i := 0 to |bytes|
        invariant Feed(h, bytes[i..]) == Feed(old(h), bytes)
      {
        assert bytes[i..][1..] == bytes[i + 1..];
        h := Xor64(h, bytes[i]);
        h := h * PRIME % LONG;
      }
    }

    method FeedU64(v: U64)
      modifies this
      ensures h == Feed(old(h), EncodeU64(v))
    {
      FeedBytes(LittleEndian(8, v));
    }

    method FeedOptU64(v: Option<U64>)
      modifies this
      ensures h == Feed(old(h), EncodeOptU64(v))
    {
      match v
      case None => FeedBytes([0]);
      case Some(v) =>
        FeedBytes([1]);
        FeedU64(v);
        FoldConcat(Step, old(h), [1], EncodeU64(v));
    }

    method FeedOptRange(r: Option<Range>)
      modifies this
      ensures h == Feed(old(h), EncodeOptRange(r))
    {
      match r
      case None => FeedBytes([0]);
      case Some((a, b)) =>
        FeedBytes([1]);
        FoldConcat(Step, old(h), [1], EncodeU64(a) + EncodeU64(b));
        FoldConcat(Step, h, EncodeU64(a), EncodeU64(b));
        FeedU64(a);
        FeedU64(b);
    }

    method FeedOptStr(s: Option<Str>)
      modifies this
      ensures h == Feed(old(h), EncodeOptStr(s))
    {
      match s
      case None => FeedBytes([0]);
      case Some(s) =>
        FeedBytes([1]);
        FoldConcat(Step, old(h), [1], EncodeU64(|s|) + s);
        FoldConcat(Step, h, EncodeU64(|s|), s);
        FeedU64(|s|);
        FeedBytes(s);
    }

    method FeedUrlPath(parse: UrlParser, url: Str)
      modifies this
      ensures h == Feed(old(h), EncodeOptStr(Some(UrlPath(parse, url))))
    {
      var path := parse(url);
      if path.Some? {
        FeedOptStr(Some(path.value));
      } else {
        FeedOptStr(Some(url));
      }
    }

    method FeedOptUrlPath(parse: UrlParser, url: Option<Str>)
      modifies this
      ensures h == Feed(old(h), EncodeOptStr(OptUrlPath(parse, url)))
    {
      match url
      case None => FeedBytes([0]);
      case Some(u) => FeedUrlPath(parse, u);
    }

    method FeedFragment(parse: UrlParser, f: Fragment)
      modifies this
      ensures h == Feed(old(h), EncodeFragment(Reduced(parse, f)))
    {
      var r := Reduced(parse, f);
      var u, b, i, m, d := EncodeOptStr(Some(r.url)), EncodeOptRange(r.byteRange), EncodeOptStr(r.initUrl),
        EncodeOptRange(r.initByteRange), EncodeOptU64(r.duration);
      FoldConcat(Step, h, u, b + (i + (m + d)));
      FeedUrlPath(parse, f.url);
      FoldConcat(Step, h, b, i + (m + d));
      FeedOptRange(f.byteRange);
      FoldConcat(Step, h, i, m + d);
      FeedOptUrlPath(parse, f.initUrl);
      FoldConcat(Step, h, m, d);
      FeedOptRange(f.initByteRange);
      FeedOptU64(f.duration);
    }
  }

  /** `fragment_fingerprint`: the FNV-1a-64 of the list's manifest bytes. */
  method FragmentFingerprint(parse: UrlParser, frags: seq<Fragment>) returns (fingerprint: U64)
    requires |frags| < LONG
    ensures fingerprint == Feed(OFFSET_BASIS, Manifest(parse, frags))
  {
    var h := new Fnv1a64();
    FoldConcat(Step, OFFSET_BASIS, EncodeU64(|frags|), EncodeFragments(parse, frags));
    h.FeedU64(|frags|);
    for i := 0 to |frags|
      invariant Feed(h.h, EncodeFragments(parse, frags[i..])) == Feed(OFFSET_BASIS, Manifest(parse, frags))
    {
      var rest := frags[i + 1..];
      assert frags[i..][1..] == rest;
      FoldConcat(Step, h.h, EncodeFragment(Reduced(parse, frags[i])), EncodeFragments(parse, rest));
      h.FeedFragment(parse, frags[i]);
    }
    return h.h;
  }
}

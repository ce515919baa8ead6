/**
  A left fold of a byte step over a stream: the shape shared by the resume checksum (`Crc32`) and the
  manifest fingerprint (`Fnv1a64`).
*/
module ByteFold {
  import opened Wrappers

  function Fold<S>(step: (S, Byte) -> S, c: S, s: Bytes): S
    decreases |s|
  {
    if s == [] then c else Fold(step, step(c, s[0]), s[1..])
  }

  lemma {:induction false} FoldConcat<S>(step: (S, Byte) -> S, c: S, s: Bytes, t: Bytes)
    ensures Fold(step, c, s + t) == Fold(step, Fold(step, c, s), t)
    decreases |s|
  {
    if s == [] {
      assert s + t == t;
    } else {
      assert (s + t)[1..] == s[1..] + t;
      FoldConcat(step, step(c, s[0]), s[1..], t);
    }
  }

  /** Each byte, held fixed, permutes the states. */
  ghost predicate PermutesStates<S(!new)>(step: (S, Byte) -> S) {
    forall c: S, d: S, b: Byte :: step(c, b) == step(d, b) ==> c == d
  }

  /** From any one state, different bytes lead to different states. */
  ghost predicate SeparatesBytes<S(!new)>(step: (S, Byte) -> S) {
    forall c: S, b: Byte, d: Byte :: step(c, b) == step(c, d) ==> b == d
  }

  lemma {:induction false} FoldInjectiveInState<S(!new)>(step: (S, Byte) -> S, c: S, d: S, s: Bytes)
    requires PermutesStates(step)
    requires Fold(step, c, s) == Fold(step, d, s)
    ensures c == d
    decreases |s|
  {
    if s == [] {
      assert Fold(step, c, s) == c && Fold(step, d, s) == d;
    } else {
      FoldInjectiveInState(step, step(c, s[0]), step(d, s[0]), s[1..]);
      var b: Byte := s[0];
      assert step(c, b) == step(d, b);
    }
  }

  /** Two streams of the same length that differ in exactly one byte never fold to the same state. */
  lemma OneByteChangeIsDetected<S(!new)>(step: (S, Byte) -> S, c: S, s: Bytes, k: nat, b: Byte)
    requires PermutesStates(step) && SeparatesBytes(step)
    requires k < |s| && b != s[k]
    ensures Fold(step, c, s[k := b]) != Fold(step, c, s)
  {
    var pre, post := s[..k], s[k + 1..];
    assert s == pre + ([s[k]] + post);
    assert s[k := b] == pre + ([b] + post);
    FoldConcat(step, c, pre, [s[k]] + post);
    FoldConcat(step, c, pre, [b] + post);
    var at := Fold(step, c, pre);
    assert ([s[k]] + post)[1..] == post && ([b] + post)[1..] == post;
    if Fold(step, c, s[k := b]) == Fold(step, c, s) {
      FoldInjectiveInState(step, step(at, b), step(at, s[k]), post);
    }
  }
}

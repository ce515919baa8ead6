/** Counting on finite ranges of integers: an injection of a range into one of the same size covers it. */
module Pigeonhole {
  predicate Within(lo: int, n: nat, x: int) {
    lo <= x < lo + n
  }

  ghost function Range(lo: int, n: nat): set<int> {
    set x: int | lo <= x < lo + n && Within(lo, n, x)
  }

  lemma {:induction false} RangeIs(lo: int, n: nat)
    ensures forall x :: x in Range(lo, n) <==> lo <= x < lo + n
    ensures |Range(lo, n)| == n
  {
    if n > 0 {
      RangeIs(lo, n - 1);
      assert Range(lo, n) == Range(lo, n - 1) + {lo + n - 1};
    }
  }

  lemma Pick<T>(s: set<T>) returns (x: T)
    requires s != {}
    ensures x in s
  {
    x :| x in s;
  }

  ghost predicate InjectiveOn(s: set<int>, f: int -> int) {
    forall x, y :: x in s && y in s && f(x) == f(y) ==> x == y
  }

  ghost function Image(s: set<int>, f: int -> int): set<int> {
    set x | x in s :: f(x)
  }

  /** An injection keeps the size of a set. */
  lemma {:induction false} ImageSize(s: set<int>, f: int -> int)
    requires InjectiveOn(s, f)
    ensures |Image(s, f)| == |s|
    decreases |s|
  {
    if s != {} {
      var x := Pick(s);
      var rest := s - {x};
      ImageSize(rest, f);
      assert Image(s, f) == Image(rest, f) + {f(x)};
      assert f(x) !in Image(rest, f);
    } else {
      assert Image(s, f) == {};
    }
  }

  /** A subset as large as the whole is the whole. */
  lemma FullSubset(a: set<int>, b: set<int>)
    requires a <= b && |a| == |b|
    ensures a == b
  {
    assert b == a + (b - a);
    if b - a != {} {
      var x := Pick(b - a);
      SubsetSize(a, b - {x});
    }
  }

  lemma {:induction false} SubsetSize(a: set<int>, b: set<int>)
    requires a <= b
    ensures |a| <= |b|
    decreases |a|
  {
    if a != {} {
      var x := Pick(a);
      SubsetSize(a - {x}, b - {x});
    }
  }

  /** Pigeonhole: an injection of `n` consecutive integers into `n` consecutive integers reaches each of them. */
  lemma Covers(lo: int, hi: int, n: nat, f: int -> int, v: int) returns (x: int)
    requires InjectiveOn(Range(lo, n), f)
    requires forall y :: lo <= y < lo + n ==> hi <= f(y) < hi + n
    requires hi <= v < hi + n
    ensures lo <= x < lo + n && f(x) == v
  {
    RangeIs(lo, n);
    RangeIs(hi, n);
    ImageSize(Range(lo, n), f);
    FullSubset(Image(Range(lo, n), f), Range(hi, n));
    assert v in Range(hi, n);
    assert v in Image(Range(lo, n), f);
    x :| x in Range(lo, n) && f(x) == v;
  }
}

/** Small generic building blocks shared by the model: an optional value and
    order-preserving filtering of sequences (the model's stand-in for a
    `SELECT ... WHERE` over a table scanned in row order). */
module Util {

  datatype Option<+T> = None | Some(value: T)

  /** `a` can be obtained from `b` by deleting elements, keeping the order. */
  ghost predicate Subseq<T>(a: seq<T>, b: seq<T>)
    decreases |b|
  {
    a == [] || (b != [] && ((a[0] == b[0] && Subseq(a[1..], b[1..])) || Subseq(a, b[1..])))
  }

  /** The elements of `xs` that satisfy `p`, in their original order. */
  function Filter<T(!new)>(xs: seq<T>, p: T -> bool): (r: seq<T>)
    ensures forall x :: x in r <==> x in xs && p(x)
    ensures |r| <= |xs|
    ensures Subseq(r, xs)
  {
    if xs == [] then []
    else if p(xs[0]) then [xs[0]] + Filter(xs[1..], p)
    else Filter(xs[1..], p)
  }

  lemma {:induction false} SubseqRefl<T>(a: seq<T>)
    ensures Subseq(a, a)
    decreases |a|
  {
    if a != [] {
      SubseqRefl(a[1..]);
    }
  }

  /** A subsequence only holds elements of the sequence it was taken from. */
  lemma {:induction false} SubseqMembers<T>(a: seq<T>, b: seq<T>)
    requires Subseq(a, b)
    ensures forall x :: x in a ==> x in b
    decreases |b|
  {
    if a != [] {
      assert b != [];
      forall x | x in a ensures x == a[0] || x in a[1..] {
        assert a == [a[0]] + a[1..];
      }
      assert b == [b[0]] + b[1..];
      if a[0] == b[0] && Subseq(a[1..], b[1..]) {
        SubseqMembers(a[1..], b[1..]);
      } else {
        SubseqMembers(a, b[1..]);
      }
    }
  }

  /** Deleting elements from both halves of a concatenation gives a
      subsequence of the concatenation. */
  lemma {:induction false} SubseqAppend<T>(a: seq<T>, b: seq<T>, c: seq<T>, d: seq<T>)
    requires Subseq(a, c) && Subseq(b, d)
    ensures Subseq(a + b, c + d)
    decreases |c|
  {
    if a == [] {
      assert a + b == b;
      SubseqSuffix(b, c, d);
    } else {
      assert c != [];
      assert (a + b)[1..] == a[1..] + b;
      assert (c + d)[1..] == c[1..] + d;
      if a[0] == c[0] && Subseq(a[1..], c[1..]) {
        SubseqAppend(a[1..], b, c[1..], d);
      } else {
        SubseqAppend(a, b, c[1..], d);
      }
    }
  }

  lemma {:induction false} SubseqSuffix<T>(b: seq<T>, c: seq<T>, d: seq<T>)
    requires Subseq(b, d)
    ensures Subseq(b, c + d)
    decreases |c|
  {
    if c == [] {
      assert c + d == d;
    } else {
      assert (c + d)[1..] == c[1..] + d;
      SubseqSuffix(b, c[1..], d);
    }
  }

  /** Filtering distributes over concatenation: a loop that filters one
      element at a time computes `Filter`. */
  lemma {:induction false} FilterAppend<T(!new)>(a: seq<T>, b: seq<T>, p: T -> bool)
    ensures Filter(a + b, p) == Filter(a, p) + Filter(b, p)
    decreases |a|
  {
    if a == [] {
      assert a + b == b;
    } else {
      assert (a + b)[0] == a[0];
      assert (a + b)[1..] == a[1..] + b;
      FilterAppend(a[1..], b, p);
    }
  }
}

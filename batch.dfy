/** The pairing half of `check_batch_compatibility` (services.py:481-495):
    one result per pair of positions i < j of the resolved devices, in the
    order of the source's two nested loops. */
module Batch {
  import opened Util
  import opened Devices
  import opened Resolver

  /** `((s1 brand, s1 model), (s2 brand, s2 model), fit)` */
  datatype PairResult = PairResult(first: DeviceKey, second: DeviceKey, fit: bool)

  function Pair(specs: seq<Spec>, i: int, j: int, heightTol: real, widthTol: real, diagonalTol: real): PairResult
    requires 0 <= i < |specs| && 0 <= j < |specs|
  {
    PairResult(specs[i].Key(), specs[j].Key(), CheckCompat(specs[i], specs[j], heightTol, widthTol, diagonalTol))
  }

  /** The results of the inner loop for `s1 = specs[i]`. */
  function RowPairs(specs: seq<Spec>, i: int, heightTol: real, widthTol: real, diagonalTol: real): (r: seq<PairResult>)
    requires 0 <= i < |specs|
    ensures |r| == |specs| - i - 1
    ensures forall k :: 0 <= k < |r| ==> r[k] == Pair(specs, i, i + 1 + k, heightTol, widthTol, diagonalTol)
  {
    seq(|specs| - i - 1, k requires 0 <= k < |specs| - i - 1 => Pair(specs, i, i + 1 + k, heightTol, widthTol, diagonalTol))
  }

  /** The results of the first `n` rounds of the outer loop. */
  function PairsUpTo(specs: seq<Spec>, n: nat, heightTol: real, widthTol: real, diagonalTol: real): seq<PairResult>
    requires n <= |specs|
  {
    if n == 0 then []
    else PairsUpTo(specs, n - 1, heightTol, widthTol, diagonalTol) + RowPairs(specs, n - 1, heightTol, widthTol, diagonalTol)
  }

  function AllPairs(specs: seq<Spec>, heightTol: real, widthTol: real, diagonalTol: real): seq<PairResult>
  {
    PairsUpTo(specs, |specs|, heightTol, widthTol, diagonalTol)
  }

  /** The first `n` rounds give n*(2|specs|-n-1)/2 results. */
  lemma {:induction false} PairsUpToLength(specs: seq<Spec>, n: nat, heightTol: real, widthTol: real, diagonalTol: real)
    requires n <= |specs|
    ensures 2 * |PairsUpTo(specs, n, heightTol, widthTol, diagonalTol)| == n * (2 * |specs| - n - 1)
  {
    if n > 0 {
      PairsUpToLength(specs, n - 1, heightTol, widthTol, diagonalTol);
    }
  }

  /** n devices give n*(n-1)/2 results. */
  lemma AllPairsLength(specs: seq<Spec>, heightTol: real, widthTol: real, diagonalTol: real)
    ensures 2 * |AllPairs(specs, heightTol, widthTol, diagonalTol)| == |specs| * (|specs| - 1)
  {
    PairsUpToLength(specs, |specs|, heightTol, widthTol, diagonalTol);
  }

  /** The first `n` rounds hold exactly the pairs i < j with i < n. */
  lemma {:induction false} PairsUpToMembers(specs: seq<Spec>, n: nat, heightTol: real, widthTol: real, diagonalTol: real)
    requires n <= |specs|
    ensures forall p :: p in PairsUpTo(specs, n, heightTol, widthTol, diagonalTol) <==>
      exists i, j :: 0 <= i < n && i < j < |specs| && p == Pair(specs, i, j, heightTol, widthTol, diagonalTol)
  {
    if n > 0 {
      PairsUpToMembers(specs, n - 1, heightTol, widthTol, diagonalTol);
      var row := RowPairs(specs, n - 1, heightTol, widthTol, diagonalTol);
      forall p | p in row
        ensures exists i, j :: 0 <= i < n && i < j < |specs| && p == Pair(specs, i, j, heightTol, widthTol, diagonalTol)
      {
        var k :| 0 <= k < |row| && row[k] == p;
        assert p == Pair(specs, n - 1, n + k, heightTol, widthTol, diagonalTol);
      }
      forall i, j | 0 <= i < n && i < j < |specs|
        ensures Pair(specs, i, j, heightTol, widthTol, diagonalTol) in PairsUpTo(specs, n, heightTol, widthTol, diagonalTol)
      {
        if i == n - 1 {
          assert row[j - n] == Pair(specs, i, j, heightTol, widthTol, diagonalTol);
        }
      }
    }
  }

  /** The results are exactly one entry per pair of positions i < j,
      carrying `check_compat(specs[i], specs[j])`. */
  lemma AllPairsMembers(specs: seq<Spec>, heightTol: real, widthTol: real, diagonalTol: real)
    ensures forall p :: p in AllPairs(specs, heightTol, widthTol, diagonalTol) <==>
      exists i, j :: 0 <= i < j < |specs| && p == Pair(specs, i, j, heightTol, widthTol, diagonalTol)
  {
    PairsUpToMembers(specs, |specs|, heightTol, widthTol, diagonalTol);
  }

  /** The nested loops of services.py:489-494, with the early return for
      fewer than two devices. */
  method PairwiseResults(specs: seq<Spec>, heightTol: real, widthTol: real, diagonalTol: real) returns (results: seq<PairResult>)
    ensures results == AllPairs(specs, heightTol, widthTol, diagonalTol)
  {
    if |specs| < 2 {
      if |specs| == 1 {
        assert PairsUpTo(specs, 1, heightTol, widthTol, diagonalTol) == [] + RowPairs(specs, 0, heightTol, widthTol, diagonalTol);
      }
      return [];
    }
    results := [];
    var i := 0;
    while i < |specs|
      invariant 0 <= i <= |specs|
      invariant results == PairsUpTo(specs, i, heightTol, widthTol, diagonalTol)
    {
      var j := i + 1;
      ghost var start := results;
      while j < |specs|
        invariant i + 1 <= j <= |specs|
        invariant results == start + RowPairs(specs, i, heightTol, widthTol, diagonalTol)[..j - i - 1]
      {
        var fit := CheckCompat(specs[i], specs[j], heightTol, widthTol, diagonalTol);
        results := results + [PairResult(specs[i].Key(), specs[j].Key(), fit)];
        assert RowPairs(specs, i, heightTol, widthTol, diagonalTol)[..j - i] ==
          RowPairs(specs, i, heightTol, widthTol, diagonalTol)[..j - i - 1] + [Pair(specs, i, j, heightTol, widthTol, diagonalTol)];
        j := j + 1;
      }
      assert RowPairs(specs, i, heightTol, widthTol, diagonalTol)[..j - i - 1] == RowPairs(specs, i, heightTol, widthTol, diagonalTol);
      i := i + 1;
    }
  }

  /** The position where `n` first occurs in `names`. */
  function FirstSeen(names: seq<string>, n: string): (p: nat)
    requires n in names
    ensures p < |names| && names[p] == n && n !in names[..p]
  {
    if names[0] == n then 0
    else
      assert names[1..][..FirstSeen(names[1..], n)] == names[1..1 + FirstSeen(names[1..], n)];
      1 + FirstSeen(names[1..], n)
  }

  /** Only one position is both an occurrence of `n` and free of earlier ones. */
  lemma FirstSeenUnique(names: seq<string>, n: string, p: nat)
    requires p < |names| && names[p] == n && n !in names[..p]
    ensures FirstSeen(names, n) == p
  {
  }

  /** Appending a name moves no first occurrence of an earlier name. */
  lemma FirstSeenAppend(init: seq<string>, last: string)
    ensures forall x :: x in init ==> FirstSeen(init + [last], x) == FirstSeen(init, x)
    ensures last !in init ==> FirstSeen(init + [last], last) == |init|
  {
    var names := init + [last];
    forall x | x in init ensures FirstSeen(names, x) == FirstSeen(init, x) {
      var p := FirstSeen(init, x);
      assert names[..p] == init[..p];
      FirstSeenUnique(names, x, p);
    }
    if last !in init {
      assert names[..|init|] == init;
      FirstSeenUnique(names, last, |init|);
    }
  }

  /** The keys of `device_cache`: each name once, in first-seen order (a
      Python dict keeps insertion order). */
  function DistinctNames(names: seq<string>): (r: seq<string>)
    ensures forall n :: n in r <==> n in names
    ensures forall i, j :: 0 <= i < j < |r| ==> r[i] != r[j]
    ensures forall i, j :: 0 <= i < j < |r| ==> FirstSeen(names, r[i]) < FirstSeen(names, r[j])
    decreases |names|
  {
    if names == [] then []
    else
      var init := names[..|names| - 1];
      var last := names[|names| - 1];
      assert names == init + [last];
      assert forall n :: n in names <==> n in init || n == last;
      var d := DistinctNames(init);
      FirstSeenAppend(init, last);
      if last in d then d else d + [last]
  }

  predicate Found(o: Option<Spec>) { o.Some? }

  /** `[spec for spec in values if spec]`: the found devices, in the order
      of the lookups and with their repeats. */
  function Present(opts: seq<Option<Spec>>): (r: seq<Spec>)
    ensures forall s :: s in r <==> Some(s) in opts
    ensures |r| == |Filter(opts, Found)|
    ensures forall k :: 0 <= k < |r| ==> Filter(opts, Found)[k] == Some(r[k])
  {
    if opts == [] then []
    else
      var rest := Present(opts[1..]);
      assert forall o :: o in opts <==> o == opts[0] || o in opts[1..];
      if opts[0].Some? then [opts[0].value] + rest else rest
  }

  /** The cached lookup of each name, in the order of the names. */
  function Lookups(rows: seq<Spec>, keys: seq<string>, score: Scorer, threshold: int): (r: seq<Option<Spec>>)
    ensures |r| == |keys| && forall k :: 0 <= k < |keys| ==> r[k] == BatchLookup(rows, keys[k], score, threshold)
  {
    seq(|keys|, k requires 0 <= k < |keys| => BatchLookup(rows, keys[k], score, threshold))
  }

  /** The devices the names resolve to, one lookup per distinct name. */
  function ResolvedSpecs(rows: seq<Spec>, names: seq<string>, score: Scorer, threshold: int): seq<Spec>
  {
    Present(Lookups(rows, DistinctNames(names), score, threshold))
  }

  /** What `check_batch_compatibility` returns. */
  function BatchResults(rows: seq<Spec>, names: seq<string>, score: Scorer, threshold: int,
                        heightTol: real, widthTol: real, diagonalTol: real): seq<PairResult>
  {
    var specs := ResolvedSpecs(rows, names, score, threshold);
    if |specs| < 2 then [] else AllPairs(specs, heightTol, widthTol, diagonalTol)
  }

  /** Every resolved device comes from a name of the batch, and every name
      that resolves contributes its device. */
  lemma ResolvedSpecsMembers(rows: seq<Spec>, names: seq<string>, score: Scorer, threshold: int)
    ensures forall s :: s in ResolvedSpecs(rows, names, score, threshold) <==>
      exists n :: n in names && BatchLookup(rows, n, score, threshold) == Some(s)
  {
    var keys := DistinctNames(names);
    var opts := Lookups(rows, keys, score, threshold);
    forall s | Some(s) in opts ensures exists n :: n in names && BatchLookup(rows, n, score, threshold) == Some(s) {
      var k :| 0 <= k < |opts| && opts[k] == Some(s);
      assert keys[k] in names;
    }
    forall s, n | n in names && BatchLookup(rows, n, score, threshold) == Some(s) ensures Some(s) in opts {
      var k :| 0 <= k < |keys| && keys[k] == n;
      assert opts[k] == Some(s);
    }
  }

  /** A name that already occurred adds no key, wherever it is repeated. */
  lemma {:induction false} DistinctNamesRepeat(a: seq<string>, name: string, b: seq<string>)
    requires name in a
    ensures DistinctNames(a + [name] + b) == DistinctNames(a + b)
    decreases |b|
  {
    if b == [] {
      assert a + [name] + b == a + [name];
      assert a + b == a;
      assert (a + [name])[..|a|] == a;
    } else {
      var b' := b[..|b| - 1];
      var x := b[|b| - 1];
      DistinctNamesRepeat(a, name, b');
      assert (a + [name] + b)[..|a + [name] + b| - 1] == a + [name] + b';
      assert (a + b)[..|a + b| - 1] == a + b';
    }
  }

  /** A name repeated anywhere after its first occurrence changes nothing. */
  lemma BatchIgnoresRepeats(rows: seq<Spec>, a: seq<string>, name: string, b: seq<string>, score: Scorer, threshold: int,
                            heightTol: real, widthTol: real, diagonalTol: real)
    requires name in a
    ensures BatchResults(rows, a + [name] + b, score, threshold, heightTol, widthTol, diagonalTol) ==
            BatchResults(rows, a + b, score, threshold, heightTol, widthTol, diagonalTol)
  {
    DistinctNamesRepeat(a, name, b);
  }

  /** Fewer than two resolved devices give no results; otherwise there is
      one result per pair, n*(n-1)/2 in all. */
  lemma BatchResultsCount(rows: seq<Spec>, names: seq<string>, score: Scorer, threshold: int,
                          heightTol: real, widthTol: real, diagonalTol: real)
    ensures var n := |ResolvedSpecs(rows, names, score, threshold)|;
      2 * |BatchResults(rows, names, score, threshold, heightTol, widthTol, diagonalTol)| == n * (n - 1)
  {
    var specs := ResolvedSpecs(rows, names, score, threshold);
    AllPairsLength(specs, heightTol, widthTol, diagonalTol);
  }
}

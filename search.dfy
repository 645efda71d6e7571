/** The search of `find_compatible_glasses` (services.py:368-448) once the
    base device is known: admin-verified guards first, then every catalog
    device inside the widened envelope of the verified group, deduplicated
    by (brand, model) in first-seen order. */
module Search {
  import opened Util
  import opened Devices
  import opened DimensionBounds
  import Notch

  /** The tag the source appends to each row. */
  datatype Source = Verified | DimensionBased

  datatype Match = Match(spec: Spec, source: Source)

  /** The closed ranges of a `height_mm BETWEEN ? AND ? AND width_mm
      BETWEEN ? AND ? AND diagonal_in BETWEEN ? AND ?` query. */
  datatype Window = Window(lowHeight: real, highHeight: real, lowWidth: real, highWidth: real,
                           lowDiagonal: real, highDiagonal: real)

  predicate InWindow(w: Window, s: Spec)
  {
    w.lowHeight <= s.height <= w.highHeight &&
    w.lowWidth <= s.width <= w.highWidth &&
    w.lowDiagonal <= s.diagonal <= w.highDiagonal
  }

  /** The envelope of the verified group widened by the tolerances
      (services.py:412-418). The upper width bound is widened by the height
      tolerance, as the source does. */
  function EnvelopeOf(b: Bounds, heightTol: real, widthTol: real, diagonalTol: real): Window
  {
    Window(b.minHeight - heightTol, b.maxHeight + heightTol,
           b.minWidth - widthTol, b.maxWidth + heightTol,
           b.minDiagonal - diagonalTol, b.maxDiagonal + diagonalTol)
  }

  /** The window of the fallback query around the base device alone
      (services.py:395-398), with the same width quirk. */
  function FallbackWindow(base: Spec, heightTol: real, widthTol: real, diagonalTol: real): Window
  {
    Window(base.height - heightTol, base.height + heightTol,
           base.width - widthTol, base.width + heightTol,
           base.diagonal - diagonalTol, base.diagonal + diagonalTol)
  }

  /** The envelope query (services.py:420-431): catalog rows inside the
      window whose notch class is one of the group's or "None". */
  function EnvelopeQuery(catalog: seq<Spec>, b: Bounds, heightTol: real, widthTol: real, diagonalTol: real): (rows: seq<Spec>)
    ensures forall s :: s in rows <==>
      s in catalog && InWindow(EnvelopeOf(b, heightTol, widthTol, diagonalTol), s) &&
      s.notch in b.notchTypes + {Notch.NoNotch}
    ensures Subseq(rows, catalog)
  {
    var w := EnvelopeOf(b, heightTol, widthTol, diagonalTol);
    Filter(catalog, (s: Spec) => InWindow(w, s) && s.notch in b.notchTypes + {Notch.NoNotch})
  }

  /** The fallback query (services.py:399-409): rows inside the window
      around the base whose notch fits the base's. */
  function FallbackQuery(catalog: seq<Spec>, base: Spec, heightTol: real, widthTol: real, diagonalTol: real): (rows: seq<Spec>)
    ensures forall s :: s in rows <==>
      s in catalog && InWindow(FallbackWindow(base, heightTol, widthTol, diagonalTol), s) &&
      NotchCompatible(base.notch, s.notch)
    ensures Subseq(rows, catalog)
  {
    var w := FallbackWindow(base, heightTol, widthTol, diagonalTol);
    Filter(catalog, (s: Spec) => InWindow(w, s) && NotchCompatible(base.notch, s.notch))
  }

  /** `[r + (tag,) for r in rows]` */
  function Tagged(rows: seq<Spec>, source: Source): (r: seq<Match>)
    ensures |r| == |rows| && forall i :: 0 <= i < |rows| ==> r[i] == Match(rows[i], source)
  {
    seq(|rows|, i requires 0 <= i < |rows| => Match(rows[i], source))
  }

  /** The verified rows (services.py:377-393): for each link target in
      order, its catalog row, kept when the base fits it exactly. */
  function VerifiedMatches(catalog: seq<Spec>, base: Spec, targets: seq<DeviceKey>): (r: seq<Match>)
    ensures forall m :: m in r ==>
      m.source == Verified && m.spec in catalog && m.spec.Key() in targets &&
      CheckCompat(base, m.spec, 0.0, 0.0, 0.0)
    ensures forall t :: (t in targets && Lookup(catalog, t).Some? &&
                         CheckCompat(base, Lookup(catalog, t).value, 0.0, 0.0, 0.0)) ==>
      Match(Lookup(catalog, t).value, Verified) in r
    decreases |targets|
  {
    if targets == [] then []
    else
      var init := targets[..|targets| - 1];
      var t := targets[|targets| - 1];
      assert forall x :: x in targets <==> x in init || x == t;
      var rest := VerifiedMatches(catalog, base, init);
      var row := Lookup(catalog, t);
      if row.Some? && CheckCompat(base, row.value, 0.0, 0.0, 0.0) then rest + [Match(row.value, Verified)]
      else rest
  }

  /** The verified-rows loop (services.py:378-393). */
  method CollectVerified(catalog: seq<Spec>, base: Spec, targets: seq<DeviceKey>) returns (out: seq<Match>)
    ensures out == VerifiedMatches(catalog, base, targets)
  {
    out := [];
    var i := 0;
    while i < |targets|
      invariant 0 <= i <= |targets|
      invariant out == VerifiedMatches(catalog, base, targets[..i])
    {
      assert targets[..i + 1][..i] == targets[..i];
      var row := Lookup(catalog, targets[i]);
      if row.Some? && CheckCompat(base, row.value, 0.0, 0.0, 0.0) {
        out := out + [Match(row.value, Verified)];
      }
      i := i + 1;
    }
    assert targets[..i] == targets;
  }

  /** `area <= base_area`, the filter of services.py:433-437. */
  function AreaAtMost(baseArea: real): Spec -> bool
  {
    (s: Spec) => s.Area() <= baseArea
  }

  lemma TaggedAppend(rows: seq<Spec>, more: seq<Spec>, source: Source)
    ensures Tagged(rows + more, source) == Tagged(rows, source) + Tagged(more, source)
  {
  }

  /** The area-filter loop (services.py:433-437). */
  method FilterByArea(rows: seq<Spec>, baseArea: real) returns (out: seq<Match>)
    ensures out == Tagged(Filter(rows, AreaAtMost(baseArea)), DimensionBased)
  {
    out := [];
    var i := 0;
    while i < |rows|
      invariant 0 <= i <= |rows|
      invariant out == Tagged(Filter(rows[..i], AreaAtMost(baseArea)), DimensionBased)
    {
      ghost var step := Filter([rows[i]], AreaAtMost(baseArea));
      assert step == if rows[i].Area() <= baseArea then [rows[i]] else [];
      assert rows[..i + 1] == rows[..i] + [rows[i]];
      FilterAppend(rows[..i], [rows[i]], AreaAtMost(baseArea));
      TaggedAppend(Filter(rows[..i], AreaAtMost(baseArea)), step, DimensionBased);
      var area := rows[i].Area();
      if area <= baseArea {
        out := out + [Match(rows[i], DimensionBased)];
      }
      i := i + 1;
    }
    assert rows[..i] == rows;
  }

  function KeysOf(ms: seq<Match>): set<DeviceKey>
  {
    set m | m in ms :: m.spec.Key()
  }

  ghost predicate DistinctKeys(ms: seq<Match>)
  {
    forall i, j :: 0 <= i < j < |ms| ==> ms[i].spec.Key() != ms[j].spec.Key()
  }

  /** The rows whose key was not seen before, in order (the `seen` loop of
      services.py:439-446). */
  function Unique(ms: seq<Match>): (r: seq<Match>)
    ensures DistinctKeys(r)
    ensures forall m :: m in r ==> m in ms
    ensures KeysOf(r) == KeysOf(ms)
    ensures Subseq(r, ms)
    decreases |ms|
  {
    if ms == [] then []
    else
      var init := ms[..|ms| - 1];
      var m := ms[|ms| - 1];
      var d := Unique(init);
      assert ms == init + [m];
      KeysOfAppend(init, m);
      SubseqRefl([m]);
      if m.spec.Key() in KeysOf(d) then
        assert d + [] == d;
        SubseqAppend(d, [], init, [m]);
        d
      else
        SubseqAppend(d, [m], init, [m]);
        KeysOfAppend(d, m);
        d + [m]
  }

  lemma KeysOfAppend(ms: seq<Match>, m: Match)
    ensures KeysOf(ms + [m]) == KeysOf(ms) + {m.spec.Key()}
  {
    assert forall x :: x in ms + [m] <==> x in ms || x == m;
  }

  /** The first row with a given key survives: for every row there is an
      earlier-or-same row with the same key in the result. */
  lemma {:induction false} UniqueKeepsFirst(ms: seq<Match>, i: int)
    requires 0 <= i < |ms|
    ensures exists j :: 0 <= j <= i && ms[j] in Unique(ms) && ms[j].spec.Key() == ms[i].spec.Key()
    decreases |ms|
  {
    var init := ms[..|ms| - 1];
    var d := Unique(init);
    if i < |ms| - 1 {
      UniqueKeepsFirst(init, i);
      var j :| 0 <= j <= i && init[j] in d && init[j].spec.Key() == init[i].spec.Key();
      assert ms[j] == init[j];
    } else if ms[i].spec.Key() in KeysOf(d) {
      var m :| m in d && m.spec.Key() == ms[i].spec.Key();
      var j :| 0 <= j < |init| && init[j] == m;
      assert ms[j] == m;
    } else {
      assert ms[i] in Unique(ms);
    }
  }

  /** The deduplication loop (services.py:439-446). */
  method DedupByKey(ms: seq<Match>) returns (out: seq<Match>)
    ensures out == Unique(ms)
  {
    out := [];
    var seen: set<DeviceKey> := {};
    var i := 0;
    while i < |ms|
      invariant 0 <= i <= |ms|
      invariant out == Unique(ms[..i])
      invariant seen == KeysOf(out)
    {
      assert ms[..i + 1][..i] == ms[..i];
      var key := ms[i].spec.Key();
      if key !in seen {
        seen := seen + {key};
        out := out + [ms[i]];
      }
      i := i + 1;
    }
    assert ms[..i] == ms;
  }

  /** The rows before deduplication: verified rows first. */
  function Combined(catalog: seq<Spec>, base: Spec, targets: seq<DeviceKey>, b: Bounds,
                    heightTol: real, widthTol: real, diagonalTol: real): seq<Match>
  {
    VerifiedMatches(catalog, base, targets) +
    Tagged(Filter(EnvelopeQuery(catalog, b, heightTol, widthTol, diagonalTol), AreaAtMost(base.Area())), DimensionBased)
  }

  /** What `find_compatible_glasses` returns for a resolved base device,
      its link targets and the bounds of its verified group. */
  function SearchResult(catalog: seq<Spec>, base: Spec, targets: seq<DeviceKey>, bounds: Option<Bounds>,
                        heightTol: real, widthTol: real, diagonalTol: real): seq<Match>
  {
    match bounds
    case None => Tagged(FallbackQuery(catalog, base, heightTol, widthTol, diagonalTol), DimensionBased)
    case Some(b) => Unique(Combined(catalog, base, targets, b, heightTol, widthTol, diagonalTol))
  }

  /** The body of `find_compatible_glasses` after the base row and its
      bounds are known. */
  method FindCompatible(catalog: seq<Spec>, base: Spec, targets: seq<DeviceKey>, bounds: Option<Bounds>,
                        heightTol: real, widthTol: real, diagonalTol: real) returns (result: seq<Match>)
    ensures result == SearchResult(catalog, base, targets, bounds, heightTol, widthTol, diagonalTol)
  {
    var verified := CollectVerified(catalog, base, targets);
    if bounds.None? {
      var rows := FallbackQuery(catalog, base, heightTol, widthTol, diagonalTol);
      return Tagged(rows, DimensionBased);
    }
    var rows := EnvelopeQuery(catalog, bounds.value, heightTol, widthTol, diagonalTol);
    var filtered := FilterByArea(rows, base.Area());
    result := DedupByKey(verified + filtered);
  }

  /** No two results share a (brand, model). */
  lemma SearchDistinctKeys(catalog: seq<Spec>, base: Spec, targets: seq<DeviceKey>, bounds: Option<Bounds>,
                           heightTol: real, widthTol: real, diagonalTol: real)
    requires UniqueKeys(catalog)
    ensures DistinctKeys(SearchResult(catalog, base, targets, bounds, heightTol, widthTol, diagonalTol))
  {
    if bounds.None? {
      SubseqUniqueKeys(FallbackQuery(catalog, base, heightTol, widthTol, diagonalTol), catalog);
    }
  }

  /** Every verified result precedes every dimension-based one. */
  lemma SearchVerifiedFirst(catalog: seq<Spec>, base: Spec, targets: seq<DeviceKey>, bounds: Option<Bounds>,
                            heightTol: real, widthTol: real, diagonalTol: real)
    ensures var r := SearchResult(catalog, base, targets, bounds, heightTol, widthTol, diagonalTol);
      forall i, j :: 0 <= i < j < |r| && r[j].source == Verified ==> r[i].source == Verified
  {
    if bounds.Some? {
      var ms := Combined(catalog, base, targets, bounds.value, heightTol, widthTol, diagonalTol);
      assert VerifiedFirst(ms);
      UniqueVerifiedFirst(ms);
    }
  }

  ghost predicate VerifiedFirst(ms: seq<Match>)
  {
    forall i, j :: 0 <= i < j < |ms| && ms[j].source == Verified ==> ms[i].source == Verified
  }

  lemma {:induction false} UniqueVerifiedFirst(ms: seq<Match>)
    requires VerifiedFirst(ms)
    ensures VerifiedFirst(Unique(ms))
    decreases |ms|
  {
    if ms != [] {
      var init := ms[..|ms| - 1];
      var m := ms[|ms| - 1];
      assert VerifiedFirst(init);
      UniqueVerifiedFirst(init);
      if m.source == Verified {
        assert forall x :: x in init ==> x.source == Verified;
      }
    }
  }

  /** What each result satisfies: a verified result is an exactly fitting
      link target of the catalog; a dimension-based one lies in the widened
      envelope with an allowed notch and an area at most the base's (or, in
      the fallback, in the window around the base with a fitting notch). */
  lemma SearchMembership(catalog: seq<Spec>, base: Spec, targets: seq<DeviceKey>, bounds: Option<Bounds>,
                         heightTol: real, widthTol: real, diagonalTol: real)
    ensures forall m :: m in SearchResult(catalog, base, targets, bounds, heightTol, widthTol, diagonalTol) ==>
      m.spec in catalog &&
      (m.source == Verified ==>
        bounds.Some? && m.spec.Key() in targets && CheckCompat(base, m.spec, 0.0, 0.0, 0.0)) &&
      (m.source == DimensionBased && bounds.Some? ==>
        InWindow(EnvelopeOf(bounds.value, heightTol, widthTol, diagonalTol), m.spec) &&
        m.spec.notch in bounds.value.notchTypes + {Notch.NoNotch} &&
        m.spec.Area() <= base.Area()) &&
      (bounds.None? ==>
        m.source == DimensionBased &&
        InWindow(FallbackWindow(base, heightTol, widthTol, diagonalTol), m.spec) &&
        NotchCompatible(base.notch, m.spec.notch))
  {
  }

  /** A device that is both a verified fit and inside the envelope comes
      back once, tagged as verified. */
  lemma SearchVerifiedWins(catalog: seq<Spec>, base: Spec, targets: seq<DeviceKey>, b: Bounds,
                           heightTol: real, widthTol: real, diagonalTol: real, m: Match)
    requires m in VerifiedMatches(catalog, base, targets)
    ensures exists r :: (r in SearchResult(catalog, base, targets, Some(b), heightTol, widthTol, diagonalTol) &&
                         r.spec.Key() == m.spec.Key() && r.source == Verified)
  {
    var verified := VerifiedMatches(catalog, base, targets);
    var ms := Combined(catalog, base, targets, b, heightTol, widthTol, diagonalTol);
    var i :| 0 <= i < |verified| && verified[i] == m;
    assert ms[i] == m;
    UniqueKeepsFirst(ms, i);
    var j :| 0 <= j <= i && ms[j] in Unique(ms) && ms[j].spec.Key() == ms[i].spec.Key();
    assert ms[j] == verified[j];
  }

  /** Every catalog device inside the envelope with an allowed notch and an
      area at most the base's is represented in the result. */
  lemma SearchComplete(catalog: seq<Spec>, base: Spec, targets: seq<DeviceKey>, b: Bounds,
                       heightTol: real, widthTol: real, diagonalTol: real, s: Spec)
    requires s in catalog
    requires InWindow(EnvelopeOf(b, heightTol, widthTol, diagonalTol), s)
    requires s.notch in b.notchTypes + {Notch.NoNotch}
    requires s.Area() <= base.Area()
    ensures s.Key() in KeysOf(SearchResult(catalog, base, targets, Some(b), heightTol, widthTol, diagonalTol))
  {
    var ms := Combined(catalog, base, targets, b, heightTol, widthTol, diagonalTol);
    var rows := EnvelopeQuery(catalog, b, heightTol, widthTol, diagonalTol);
    assert s in Filter(rows, AreaAtMost(base.Area()));
    assert Match(s, DimensionBased) in ms;
  }

  /** The result keeps the order of the combined rows: verified rows in
      link order, then dimension-based rows in catalog order. */
  lemma SearchKeepsOrder(catalog: seq<Spec>, base: Spec, targets: seq<DeviceKey>, b: Bounds,
                         heightTol: real, widthTol: real, diagonalTol: real)
    ensures Subseq(SearchResult(catalog, base, targets, Some(b), heightTol, widthTol, diagonalTol),
                   Combined(catalog, base, targets, b, heightTol, widthTol, diagonalTol))
  {
  }
}

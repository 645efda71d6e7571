/** The dimension-bounds aggregator `get_verified_dimension_bounds`
    (services.py:300-357): the envelope of a device together with every
    device an admin verified as compatible with it. */
module DimensionBounds {
  import opened Util
  import opened Devices

  /** The envelope: extreme height, width and diagonal, and the notch
      classes seen. */
  datatype Bounds = Bounds(minHeight: real, maxHeight: real, minWidth: real, maxWidth: real,
                           minDiagonal: real, maxDiagonal: real, notchTypes: set<string>)

  /** The rows the aggregator reads: the catalog rows of the verified links
      (a JOIN, so dangling links drop out) followed by the device's own row,
      which the UNION adds unless it is already there. */
  function BoundsRows(catalog: seq<Spec>, targets: seq<DeviceKey>, device: DeviceKey): (rows: seq<Spec>)
    ensures forall r :: r in rows ==> r in catalog
    ensures forall r :: r in rows ==> r.Key() in targets || r.Key() == device
    ensures forall t :: t in targets && Lookup(catalog, t).Some? ==> Lookup(catalog, t).value in rows
  {
    var linked := LinkedRows(catalog, targets);
    var own := Lookup(catalog, device);
    if own.Some? && own.value !in linked then linked + [own.value] else linked
  }

  /** `JOIN glasses g ON cd.compatible_brand = g.brand AND ...`: the catalog
      row of each link target that has one, in link order. */
  function LinkedRows(catalog: seq<Spec>, targets: seq<DeviceKey>): (rows: seq<Spec>)
    ensures forall r :: r in rows ==> r in catalog && r.Key() in targets
    ensures forall t :: t in targets && Lookup(catalog, t).Some? ==> Lookup(catalog, t).value in rows
  {
    if targets == [] then []
    else
      var rest := LinkedRows(catalog, targets[1..]);
      assert forall t :: t in targets ==> t == targets[0] || t in targets[1..];
      match Lookup(catalog, targets[0])
      case Some(r) => [r] + rest
      case None => rest
  }

  /** Whenever the device has a catalog row the aggregator has a row to read,
      so it never returns the empty triple and the fallback branch of
      `find_compatible_glasses` (services.py:395-410) is never taken. */
  lemma BoundsRowsHasDevice(catalog: seq<Spec>, targets: seq<DeviceKey>, device: DeviceKey)
    requires Lookup(catalog, device).Some?
    ensures Lookup(catalog, device).value in BoundsRows(catalog, targets, device)
  {
  }

  function Min(a: real, b: real): real { if b < a then b else a }
  function Max(a: real, b: real): real { if b > a then b else a }

  /** The first `n` rows lie within the envelope on every axis. */
  ghost predicate Envelops(b: Bounds, rows: seq<Spec>, n: nat)
    requires n <= |rows|
  {
    forall j :: 0 <= j < n ==>
      b.minHeight <= rows[j].height <= b.maxHeight &&
      b.minWidth <= rows[j].width <= b.maxWidth &&
      b.minDiagonal <= rows[j].diagonal <= b.maxDiagonal
  }

  /** Every extreme of the envelope is the value of one of the first `n` rows. */
  ghost predicate Attained(b: Bounds, rows: seq<Spec>, n: nat)
    requires n <= |rows|
  {
    (exists j :: 0 <= j < n && rows[j].height == b.minHeight) &&
    (exists j :: 0 <= j < n && rows[j].height == b.maxHeight) &&
    (exists j :: 0 <= j < n && rows[j].width == b.minWidth) &&
    (exists j :: 0 <= j < n && rows[j].width == b.maxWidth) &&
    (exists j :: 0 <= j < n && rows[j].diagonal == b.minDiagonal) &&
    (exists j :: 0 <= j < n && rows[j].diagonal == b.maxDiagonal)
  }

  /** The notch classes of the first `n` rows. */
  function NotchSet(rows: seq<Spec>, n: nat): set<string>
    requires n <= |rows|
  {
    set j | 0 <= j < n :: rows[j].notch
  }

  /** Among the first `n` rows, `rows[k]` has the largest area and every
      earlier row a strictly smaller one: the strict `>` keeps the first of
      equal areas. */
  ghost predicate FirstLargestAt(rows: seq<Spec>, n: nat, k: int)
    requires n <= |rows|
  {
    0 <= k < n &&
    (forall j :: 0 <= j < n ==> rows[j].Area() <= rows[k].Area()) &&
    (forall j :: 0 <= j < k ==> rows[j].Area() < rows[k].Area())
  }

  ghost predicate FirstSmallestAt(rows: seq<Spec>, n: nat, k: int)
    requires n <= |rows|
  {
    0 <= k < n &&
    (forall j :: 0 <= j < n ==> rows[j].Area() >= rows[k].Area()) &&
    (forall j :: 0 <= j < k ==> rows[j].Area() > rows[k].Area())
  }

  /** The accumulators after one more row. */
  function Extend(b: Bounds, r: Spec): Bounds
  {
    Bounds(Min(b.minHeight, r.height), Max(b.maxHeight, r.height),
           Min(b.minWidth, r.width), Max(b.maxWidth, r.width),
           Min(b.minDiagonal, r.diagonal), Max(b.maxDiagonal, r.diagonal),
           b.notchTypes + {r.notch})
  }

  /** One loop step keeps the envelope exact. */
  lemma ExtendEnvelope(b: Bounds, rows: seq<Spec>, n: nat)
    requires n < |rows|
    requires Envelops(b, rows, n) && Attained(b, rows, n) && b.notchTypes == NotchSet(rows, n)
    ensures Envelops(Extend(b, rows[n]), rows, n + 1) && Attained(Extend(b, rows[n]), rows, n + 1)
    ensures Extend(b, rows[n]).notchTypes == NotchSet(rows, n + 1)
  {
  }

  /** One loop step keeps the first largest and first smallest rows. */
  lemma ExtendExtremes(rows: seq<Spec>, n: nat, bi: int, si: int)
    requires n < |rows|
    requires FirstLargestAt(rows, n, bi) && FirstSmallestAt(rows, n, si)
    ensures FirstLargestAt(rows, n + 1, if rows[n].Area() > rows[bi].Area() then n else bi)
    ensures FirstSmallestAt(rows, n + 1, if rows[n].Area() < rows[si].Area() then n else si)
  {
  }

  /** The envelope of a single row. */
  function Start(r: Spec): Bounds
  {
    Bounds(r.height, r.height, r.width, r.width, r.diagonal, r.diagonal, {r.notch})
  }

  /** The bounds the aggregator computes, row by row in query order; none
      for no rows. */
  function BoundsOf(rows: seq<Spec>): (b: Option<Bounds>)
    ensures b.None? <==> rows == []
    decreases |rows|
  {
    if rows == [] then None
    else if |rows| == 1 then Some(Start(rows[0]))
    else Some(Extend(BoundsOf(rows[..|rows| - 1]).value, rows[|rows| - 1]))
  }

  /** The bounds of the first `n` rows are exact: every one of those rows
      lies within them, every extreme is some row's value, and the notch
      classes are exactly those of the rows. */
  lemma {:induction false} BoundsOfPrefix(rows: seq<Spec>, n: nat)
    requires 1 <= n <= |rows|
    ensures Envelops(BoundsOf(rows[..n]).value, rows, n)
    ensures Attained(BoundsOf(rows[..n]).value, rows, n)
    ensures BoundsOf(rows[..n]).value.notchTypes == NotchSet(rows, n)
  {
    if n == 1 {
      assert NotchSet(rows, 1) == {rows[0].notch};
    } else {
      var prev := BoundsOf(rows[..n - 1]).value;
      assert rows[..n][..n - 1] == rows[..n - 1];
      assert BoundsOf(rows[..n]).value == Extend(prev, rows[n - 1]);
      BoundsOfPrefix(rows, n - 1);
      ExtendEnvelope(prev, rows, n - 1);
    }
  }

  /** Every row lies within the bounds on each axis, each minimum and
      maximum is attained by some row, and the notch set is exactly the
      rows' notch classes. */
  lemma BoundsOfExact(rows: seq<Spec>)
    requires rows != []
    ensures Envelops(BoundsOf(rows).value, rows, |rows|)
    ensures Attained(BoundsOf(rows).value, rows, |rows|)
    ensures BoundsOf(rows).value.notchTypes == NotchSet(rows, |rows|)
  {
    BoundsOfPrefix(rows, |rows|);
    assert rows[..|rows|] == rows;
  }

  /** The device row always yields bounds, so `find_compatible_glasses`
      never takes its fallback branch. */
  lemma FallbackNeverTaken(catalog: seq<Spec>, targets: seq<DeviceKey>, device: DeviceKey)
    requires Lookup(catalog, device).Some?
    ensures BoundsOf(BoundsRows(catalog, targets, device)).Some?
  {
    BoundsRowsHasDevice(catalog, targets, device);
  }

  /** The bounds cover the whole verified group: the catalog row of every
      link target lies within them on each axis, and its notch class is in
      the notch set. */
  lemma BoundsCoverGroup(catalog: seq<Spec>, targets: seq<DeviceKey>, device: DeviceKey, t: DeviceKey)
    requires t in targets && Lookup(catalog, t).Some?
    ensures var b := BoundsOf(BoundsRows(catalog, targets, device));
      var r := Lookup(catalog, t).value;
      b.Some? &&
      b.value.minHeight <= r.height <= b.value.maxHeight &&
      b.value.minWidth <= r.width <= b.value.maxWidth &&
      b.value.minDiagonal <= r.diagonal <= b.value.maxDiagonal &&
      r.notch in b.value.notchTypes
  {
    var rows := BoundsRows(catalog, targets, device);
    var r := Lookup(catalog, t).value;
    BoundsOfExact(rows);
    var j :| 0 <= j < |rows| && rows[j] == r;
    assert r.notch in NotchSet(rows, |rows|);
  }

  /** `get_verified_dimension_bounds` over the rows its query returns. The
      source starts its accumulators at plus and minus infinity; here they
      start at the first row, which the first iteration would store. */
  method VerifiedDimensionBounds(rows: seq<Spec>) returns (largest: Option<Spec>, smallest: Option<Spec>, bounds: Option<Bounds>)
    ensures bounds == BoundsOf(rows)
    ensures rows == [] <==> largest.None?
    ensures rows == [] <==> smallest.None?
    ensures largest.Some? ==> exists k :: FirstLargestAt(rows, |rows|, k) && rows[k] == largest.value
    ensures smallest.Some? ==> exists k :: FirstSmallestAt(rows, |rows|, k) && rows[k] == smallest.value
  {
    if rows == [] {
      return None, None, None;
    }
    var minH, maxH := rows[0].height, rows[0].height;
    var minW, maxW := rows[0].width, rows[0].width;
    var minD, maxD := rows[0].diagonal, rows[0].diagonal;
    var notches := {rows[0].notch};
    var big, small := rows[0], rows[0];
    var bigArea, smallArea := rows[0].Area(), rows[0].Area();
    ghost var bi, si := 0, 0;
    var i := 1;
    while i < |rows|
      invariant 1 <= i <= |rows|
      invariant Bounds(minH, maxH, minW, maxW, minD, maxD, notches) == BoundsOf(rows[..i]).value
      invariant FirstLargestAt(rows, i, bi) && big == rows[bi] && bigArea == big.Area()
      invariant FirstSmallestAt(rows, i, si) && small == rows[si] && smallArea == small.Area()
    {
      ExtendExtremes(rows, i, bi, si);
      assert rows[..i + 1][..i] == rows[..i];
      var r := rows[i];
      var area := r.Area();
      notches := notches + {r.notch};
      minH, maxH := Min(minH, r.height), Max(maxH, r.height);
      minW, maxW := Min(minW, r.width), Max(maxW, r.width);
      minD, maxD := Min(minD, r.diagonal), Max(maxD, r.diagonal);
      if area > bigArea {
        bigArea, big := area, r;
        bi := i;
      }
      if area < smallArea {
        smallArea, small := area, r;
        si := i;
      }
      i := i + 1;
    }
    assert rows[..i] == rows;
    largest, smallest := Some(big), Some(small);
    bounds := Some(Bounds(minH, maxH, minW, maxW, minD, maxD, notches));
  }
}

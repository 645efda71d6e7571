/** The catalog store of services.py: the `glasses` and
    `compatible_devices` tables held in memory, and the module-global
    display-list cache `_display_list_cache` (services.py:14) that writes
    reset and readers rebuild lazily. */
module Catalog {
  import opened Util
  import opened Devices
  import Notch
  import opened Links
  import opened Resolver
  import opened DimensionBounds
  import opened Search
  import opened Batch

  /** How a write ends: done, or the `ValueError("Invalid device
      dimensions")` the source raises before touching the database. */
  datatype Outcome = Done | InvalidDimensions

  /** What `find_compatible_glasses` returns for a query: nothing when the
      name does not resolve, otherwise the search over the base device. */
  function CompatibleResult(glasses: seq<Spec>, links: seq<Link>, query: string, score: Scorer, threshold: int,
                            heightTol: real, widthTol: real, diagonalTol: real): Option<seq<Match>>
  {
    match ResolveSpec(glasses, query, score, threshold)
    case None => None
    case Some(base) =>
      var targets := LinkTargets(links, base.Key());
      Some(SearchResult(glasses, base, targets, BoundsOf(BoundsRows(glasses, targets, base.Key())),
                        heightTol, widthTol, diagonalTol))
  }

  /** In a catalog with unique keys the resolved base device always has
      bounds, so the result is always the deduplicated verified-then-envelope
      list and never the fallback. */
  lemma CompatibleResultNoFallback(glasses: seq<Spec>, links: seq<Link>, query: string, score: Scorer, threshold: int,
                                   heightTol: real, widthTol: real, diagonalTol: real)
    requires UniqueKeys(glasses)
    ensures var r := CompatibleResult(glasses, links, query, score, threshold, heightTol, widthTol, diagonalTol);
      r.None? <==> ResolveSpec(glasses, query, score, threshold).None?
    ensures var base := ResolveSpec(glasses, query, score, threshold);
      base.Some? ==>
        var targets := LinkTargets(links, base.value.Key());
        var b := BoundsOf(BoundsRows(glasses, targets, base.value.Key()));
        b.Some? &&
        CompatibleResult(glasses, links, query, score, threshold, heightTol, widthTol, diagonalTol) ==
          Some(Unique(Combined(glasses, base.value, targets, b.value, heightTol, widthTol, diagonalTol)))
  {
    var base := ResolveSpec(glasses, query, score, threshold);
    if base.Some? {
      ResolveSpecFound(glasses, query, score, threshold);
      LookupFindsRow(glasses, base.value);
      FallbackNeverTaken(glasses, LinkTargets(links, base.value.Key()), base.value.Key());
    }
  }

  /** The rows of `find_devices_by_dimensions` (services.py:497-504). */
  function DimensionQuery(glasses: seq<Spec>, w: Window): (rows: seq<Spec>)
    ensures forall s :: s in rows <==> s in glasses && InWindow(w, s)
    ensures Subseq(rows, glasses)
  {
    Filter(glasses, (s: Spec) => InWindow(w, s))
  }

  class Store {
    /** The `glasses` table in scan order. */
    var glasses: seq<Spec>
    /** The `compatible_devices` table in scan order. */
    var links: seq<Link>
    /** `_display_list_cache`: `None` until built, reset by every write of
        this class. */
    var cache: Option<seq<DisplayEntry>>

    /** The table keys hold, and a built cache mirrors the catalog. The
        cache clause holds because every writer below resets the cache;
        `update_device_from_source`, which does not, is not modelled. */
    ghost predicate Valid()
      reads this
    {
      UniqueKeys(glasses) && NoDuplicates(links) &&
      (cache.Some? ==> cache.value == DisplayList(glasses))
    }

    /** `init_db` on a fresh database: empty tables, no cache. */
    constructor ()
      ensures Valid()
      ensures glasses == [] && links == [] && cache == None
    {
      glasses, links, cache := [], [], None;
    }

    /** `clear_display_list_cache` */
    method ClearDisplayListCache()
      modifies this`cache
      ensures cache == None
    {
      cache := None;
    }

    /** `_build_display_list`: reuse the cache or rebuild it from the
        catalog; either way the list mirrors the catalog. */
    method BuildDisplayList() returns (list: seq<DisplayEntry>)
      requires Valid()
      modifies this`cache
      ensures Valid()
      ensures list == DisplayList(glasses) && cache == Some(list)
    {
      if cache.None? {
        cache := Some(DisplayList(glasses));
      }
      list := cache.value;
    }

    /** `device_exists` */
    function DeviceExists(brand: string, model: string): (r: bool)
      reads this
      ensures r <==> exists s :: s in glasses && s.brand == brand && s.model == model
    {
      Lookup(glasses, (brand, model)).Some?
    }

    /** `add_glass`: validate, then insert or replace the row with the
        notch normalised, then clear the cache. */
    method AddGlass(brand: string, model: string, height: real, width: real, diagonal: real, notch: string)
      returns (outcome: Outcome)
      requires Valid()
      modifies this`glasses, this`cache
      ensures Valid()
      ensures outcome == InvalidDimensions <==> !ValidDimensions(height, width, diagonal)
      ensures outcome == InvalidDimensions ==> glasses == old(glasses) && cache == old(cache)
      ensures outcome == Done ==>
        glasses == Upsert(old(glasses), Spec(brand, model, height, width, diagonal, Notch.NormalizeNotchType(notch))) &&
        cache == None
    {
      if !ValidDimensions(height, width, diagonal) {
        return InvalidDimensions;
      }
      var row := Spec(brand, model, height, width, diagonal, Notch.NormalizeNotchType(notch));
      UpsertUniqueKeys(glasses, row);
      glasses := Upsert(glasses, row);
      ClearDisplayListCache();
      outcome := Done;
    }

    /** `add_phone`: split the name at the first space, then `add_glass`. */
    method AddPhone(name: string, height: real, width: real, diagonal: real, notch: string)
      returns (outcome: Outcome)
      requires Valid()
      modifies this`glasses, this`cache
      ensures Valid()
      ensures outcome == InvalidDimensions <==> !ValidDimensions(height, width, diagonal)
      ensures outcome == InvalidDimensions ==> glasses == old(glasses) && cache == old(cache)
      ensures outcome == Done ==>
        glasses == Upsert(old(glasses), Spec(SplitName(name).0, SplitName(name).1, height, width, diagonal,
                                             Notch.NormalizeNotchType(notch))) &&
        cache == None
    {
      var key := SplitName(name);
      outcome := AddGlass(key.0, key.1, height, width, diagonal, notch);
    }

    /** `update_phone_dimensions`: validate, then update the row with the
        key if there is one (never insert), then clear the cache. */
    method UpdatePhoneDimensions(brand: string, model: string, height: real, width: real, diagonal: real, notch: string)
      returns (outcome: Outcome)
      requires Valid()
      modifies this`glasses, this`cache
      ensures Valid()
      ensures outcome == InvalidDimensions <==> !ValidDimensions(height, width, diagonal)
      ensures outcome == InvalidDimensions ==> glasses == old(glasses) && cache == old(cache)
      ensures outcome == Done ==>
        glasses == UpdateRows(old(glasses), (brand, model), height, width, diagonal, Notch.NormalizeNotchType(notch)) &&
        cache == None
    {
      if !ValidDimensions(height, width, diagonal) {
        return InvalidDimensions;
      }
      var normalized := Notch.NormalizeNotchType(notch);
      UpdateRowsUniqueKeys(glasses, (brand, model), height, width, diagonal, normalized);
      glasses := UpdateRows(glasses, (brand, model), height, width, diagonal, normalized);
      ClearDisplayListCache();
      outcome := Done;
    }

    /** `add_compatible_devices`: one insert-or-ignore per listed device.
        The source returns nothing. */
    method AddCompatibleDevices(device: DeviceKey, compatible: seq<DeviceKey>)
      requires Valid()
      modifies this`links
      ensures Valid()
      ensures links == InsertAll(old(links), device, compatible)
    {
      var i := 0;
      while i < |compatible|
        invariant 0 <= i <= |compatible|
        invariant links == InsertAll(old(links), device, compatible[..i])
        invariant Valid()
      {
        assert compatible[..i + 1][..i] == compatible[..i];
        InsertAllNoDuplicates(old(links), device, compatible[..i + 1]);
        links := InsertLink(links, Link(device, compatible[i]));
        i := i + 1;
      }
      assert compatible[..i] == compatible;
    }

    /** `get_compatible_devices` */
    function GetCompatibleDevices(brand: string, model: string): (targets: seq<DeviceKey>)
      reads this
      ensures forall t :: t in targets <==> Link((brand, model), t) in links
    {
      LinkTargets(links, (brand, model))
    }

    /** `find_devices_by_dimensions`: the rows inside the given closed ranges. */
    function FindDevicesByDimensions(heightMin: real, heightMax: real, widthMin: real, widthMax: real,
                                     diagonalMin: real, diagonalMax: real): (rows: seq<Spec>)
      reads this
      ensures forall s :: s in rows <==>
        s in glasses && heightMin <= s.height <= heightMax && widthMin <= s.width <= widthMax &&
        diagonalMin <= s.diagonal <= diagonalMax
    {
      DimensionQuery(glasses, Window(heightMin, heightMax, widthMin, widthMax, diagonalMin, diagonalMax))
    }

    /** `normalize_glass`: the best display name if it scores at least the
        threshold. */
    method NormalizeGlass(query: string, score: Scorer, threshold: int) returns (r: Option<string>)
      requires Valid()
      modifies this`cache
      ensures Valid()
      ensures cache == Some(DisplayList(glasses))
      ensures r == BestMatch(query, Names(DisplayList(glasses)), score, threshold)
    {
      var list := BuildDisplayList();
      var names := Names(list);
      if names == [] {
        return None;
      }
      r := BestMatch(query, names, score, threshold);
    }

    /** `normalize_brand`: the best brand if it scores at least the
        threshold. */
    method NormalizeBrand(query: string, score: Scorer, threshold: int) returns (r: Option<string>)
      requires Valid()
      modifies this`cache
      ensures Valid()
      ensures cache == Some(DisplayList(glasses))
      ensures r == BestMatch(query, Brands(DisplayList(glasses)), score, threshold)
    {
      var list := BuildDisplayList();
      var brands := Brands(list);
      if brands == [] {
        return None;
      }
      r := BestMatch(query, brands, score, threshold);
    }

    /** `get_phone`: resolve the name, then scan the display list for the
        first entry carrying the match. */
    method GetPhone(query: string, score: Scorer, threshold: int) returns (r: Option<Spec>)
      requires Valid()
      modifies this`cache
      ensures Valid()
      ensures cache == Some(DisplayList(glasses))
      ensures r == ResolveSpec(glasses, query, score, threshold)
    {
      var display := NormalizeGlass(query, score, threshold);
      if display.None? || display.value == "" {
        return None;
      }
      var list := BuildDisplayList();
      r := FindByName(list, display.value);
    }

    /** `find_compatible_glasses` */
    method FindCompatibleGlasses(query: string, score: Scorer, threshold: int,
                                 heightTol: real, widthTol: real, diagonalTol: real)
      returns (r: Option<seq<Match>>)
      requires Valid()
      modifies this`cache
      ensures Valid()
      ensures cache == Some(DisplayList(glasses))
      ensures r == CompatibleResult(glasses, links, query, score, threshold, heightTol, widthTol, diagonalTol)
    {
      var display := NormalizeGlass(query, score, threshold);
      if display.None? || display.value == "" {
        return None;
      }
      var list := BuildDisplayList();
      var found := FirstByName(list, display.value);
      assert found.Some?;
      var base := found.value;
      var targets := GetCompatibleDevices(base.brand, base.model);
      var rows := BoundsRows(glasses, targets, base.Key());
      var largest, smallest, bounds := VerifiedDimensionBounds(rows);
      var result := FindCompatible(glasses, base, targets, bounds, heightTol, widthTol, diagonalTol);
      r := Some(result);
    }

    /** `get_phone(name) or get_phone(normalize_glass(name) or "")` */
    method BatchLookupOf(name: string, score: Scorer, threshold: int) returns (spec: Option<Spec>)
      requires Valid()
      modifies this`cache
      ensures Valid()
      ensures cache == Some(DisplayList(glasses))
      ensures spec == BatchLookup(glasses, name, score, threshold)
    {
      spec := GetPhone(name, score, threshold);
      if spec.None? {
        var display := NormalizeGlass(name, score, threshold);
        spec := GetPhone(if display.None? then "" else display.value, score, threshold);
      }
    }

    /** `check_batch_compatibility`: look each distinct name up once, keep
        the devices found, then pair them. */
    method CheckBatchCompatibility(names: seq<string>, score: Scorer, threshold: int,
                                   heightTol: real, widthTol: real, diagonalTol: real)
      returns (results: seq<PairResult>)
      requires Valid()
      modifies this`cache
      ensures Valid()
      ensures results == BatchResults(glasses, names, score, threshold, heightTol, widthTol, diagonalTol)
      ensures names != [] ==> cache == Some(DisplayList(glasses))
      ensures names == [] ==> cache == old(cache)
    {
      var keys: seq<string> := [];
      var deviceCache: map<string, Option<Spec>> := map[];
      var i := 0;
      while i < |names|
        invariant 0 <= i <= |names|
        invariant Valid()
        invariant glasses == old(glasses)
        invariant keys == DistinctNames(names[..i])
        invariant cache == if i == 0 then old(cache) else Some(DisplayList(glasses))
        invariant forall n :: n in deviceCache <==> n in keys
        invariant forall n :: n in deviceCache ==> deviceCache[n] == BatchLookup(glasses, n, score, threshold)
      {
        assert names[..i + 1][..i] == names[..i];
        var name := names[i];
        if name !in deviceCache {
          var spec := BatchLookupOf(name, score, threshold);
          deviceCache := deviceCache[name := spec];
          keys := keys + [name];
        }
        i := i + 1;
      }
      assert names[..i] == names;
      var specs := Present(seq(|keys|, k requires 0 <= k < |keys| => deviceCache[keys[k]]));
      assert specs == ResolvedSpecs(glasses, names, score, threshold) by {
        assert seq(|keys|, k requires 0 <= k < |keys| => deviceCache[keys[k]]) == Lookups(glasses, keys, score, threshold);
      }
      if |specs| < 2 {
        return [];
      }
      results := PairwiseResults(specs, heightTol, widthTol, diagonalTol);
    }
  }
}

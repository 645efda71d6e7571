# Screen-guard compatibility engine — a Dafny model

This project models the device-compatibility core of `services.py`, the backend of a chat bot. The bot tells users which screen guards fit which phones.

- **Catalog.** The `glasses` table holds one row per device, keyed by (brand, model), with height and width in millimetres, the diagonal in inches and a notch class.
- **Verified links.** The `compatible_devices` table holds admin-verified edges. Each edge goes from a device to a device whose guard fits it.
- **Display-list cache.** A process-wide cache of display names. Readers rebuild it lazily. Every catalog write in the model resets it. The source's `update_device_from_source` writes without resetting it, and that writer is not modelled.
- **Search.** `find_compatible_glasses` resolves a free-text name by fuzzy matching. It then combines three things:
  - the verified links that pass an exact-fit check;
  - a catalog scan inside the tolerance-widened envelope of the device and its verified group;
  - a deduplication by (brand, model) that keeps verified rows first.

The module layout follows the program:

| module | file | what it models |
|---|---|---|
| `PyText` | `pytext.dfy` | Python's `str.strip()` and `str.title()` |
| `Notch` | `notch.dfy` | `normalize_notch_type` |
| `Devices` | `devices.dfy` | device rows, `validate_device_dimensions`, `check_compat`, lookup, insert-or-replace, update, name splitting |
| `Links` | `links.dfy` | the verified-link table |
| `Resolver` | `resolver.dfy` | the display list and the fuzzy resolution of `normalize_glass`, `normalize_brand` and `get_phone` |
| `DimensionBounds` | `bounds.dfy` | `get_verified_dimension_bounds` |
| `Search` | `search.dfy` | the body of `find_compatible_glasses` |
| `Batch` | `batch.dfy` | `check_batch_compatibility` |
| `Escape` | `escape.dfy` | `escape_markdown_v2` |
| `Catalog` | `catalog.dfy` | class `Store`: the two tables and the cache as fields, the store operations as methods |

Each operation that loops or writes is an imperative method. Its `ensures` ties the method to a specification function. The source's promises are lemmas about those functions.

Behaviour the model keeps on purpose, because the code has it:

- **"Punch-hole" is never produced.** `title()` turns "punch-hole" into "Punch-Hole", which is not a class. Notch normalisation therefore never returns "Punch-hole". The spelling "Punch-hole" itself normalises to "None".
- **The upper width bound uses the height tolerance.** This holds both in the envelope query and in the fallback query.
- **The fallback drops the verified rows.** The fallback query returns only dimension-based rows.
- **The fallback is never taken.** The bounds query's `UNION` always includes the device's own row, so bounds always exist when the name resolved (`DimensionBounds.FallbackNeverTaken`, `Catalog.CompatibleResultNoFallback`).
- **An empty match counts as no match.** A fuzzy match equal to the empty display name is treated as "not found" (`if not display`).
- **The batch retry only ever tries the empty query.** When `get_phone(name)` fails, `normalize_glass(name) or ""` is always `""` (`Resolver.BatchLookupRetriesEmpty`).

Behaviour a reader might expect that the code does not have:

- `add_compatible_devices` returns nothing, not a count of inserted edges.
- `update_phone_dimensions` is a plain `UPDATE`. It never inserts a row.
- When there are no verified links, the bounds are not null: they are the device's own envelope.
- In the fallback branch the verified rows are not prepended.

Inputs the model treats as parameters:

- The fuzzy similarity score of the `fuzzywuzzy` library is an uninterpreted parameter (`Resolver.Scorer`). `extractOne` is modelled as the first choice with the highest score.
- The threshold `FUZZY_THRESHOLD` and the tolerances (`TOL_MM`, 0.1) are parameters.

## Model

| member | source | states |
|---|---|---|
| `Notch.NormalizeNotchType` | services.py:17-19 | the result is always one of the five notch classes |
| `Notch.NormalizeNeverPunchHole` | services.py:15-19 | no input normalises to "Punch-hole" |
| `Notch.TitleNeverPunchHole` | services.py:18 | `title()` never yields "Punch-hole": the letter after a hyphen is upper-cased |
| `Notch.NormalizeFixesOutputs` | services.py:15-19 | each class other than "Punch-hole" normalises to itself |
| `Notch.NormalizeWord` | services.py:17-19 | a capitalised single-word class normalises to itself |
| `Notch.NormalizeIdempotent` | services.py:17-19 | normalising a normalised class changes nothing |
| `Notch.NormalizeIgnoresBlanks` | services.py:18 | blanks added around the description do not change its class |
| `Notch.NormalizeIgnoresCase` | services.py:18 | descriptions that differ only in letter case get the same class |
| `Notch.NormalizeCaseOfWord` | services.py:17-19 | any spelling that differs from a capitalised class only in letter case normalises to that class |
| `Notch.NormalizeUpperCaseExample` | services.py:18-19 | "NOTCH" normalises to "Notch" |
| `Notch.NormalizePunchHoleIsNone` | services.py:15-19 | the spelling "Punch-hole" normalises to "None" |
| `Notch.NormalizeTenCharacters` | services.py:15-19 | any description of ten characters after stripping normalises to "None" |
| `PyText.StripIgnoresBlanks` | services.py:18 | `strip()` of a text with blanks added at either end equals `strip()` of the text |
| `PyText.TitleUpToCase` | services.py:18 | `title()` does not depend on the case of the input letters |
| `PyText.TitleOfWord` | services.py:18 | a capitalised word is its own `title()` |
| `PyText.StripUnchanged` | services.py:18 | a text with no blank at either end is its own `strip()` |
| `Devices.CheckCompatMeaning` | services.py:359-366 | `CheckCompat`, the model of `check_compat`: a guard fits iff its height and width are each at most the device's and within tolerance below it, the diagonals are within tolerance, and the notches are equal or one is "None" |
| `Devices.CheckCompatZeroTolerance` | services.py:359-366 | with zero tolerances a guard fits iff height, width and diagonal are exactly equal and the notches fit |
| `Devices.CheckCompatMonotone` | services.py:359-366 | widening a tolerance never turns a fit into a misfit |
| `Devices.CheckCompatRejectsLargerGuard` | services.py:362-364 | a guard taller or wider than the device never fits, whatever the tolerances |
| `Devices.CheckCompatMutual` | services.py:362-364 | two devices that fit each other have equal height and width |
| `Devices.CheckCompatNotSymmetric` | services.py:359-366 | a concrete pair where the guard fits the phone but not the other way round |
| `Devices.Lookup` | services.py:225-231 | the found row is in the table with the key; nothing is found iff no row has the key |
| `Devices.LookupFindsRow` | services.py:53-56 | with unique keys every row is what its key finds |
| `Devices.UpsertUniqueKeys` | services.py:236-240 | insert-or-replace keeps (brand, model) unique |
| `Devices.UpsertReplaces` | services.py:236-240 | after `Upsert`, the model of insert-or-replace, the key finds exactly the new row, every other key finds what it found before, and keys stay unique |
| `Devices.UpdateRowsLookup` | services.py:474-477 | after `UpdateRows`, the model of the `UPDATE`, the key finds the old row with the new dimensions and notch, or nothing if there was no row |
| `Devices.UpdateRowsOthers` | services.py:474-477 | an update leaves every other key's row unchanged |
| `Devices.UpdateRowsAbsent` | services.py:474-477 | updating a missing key changes nothing and inserts nothing |
| `Devices.UpdateRowsUniqueKeys` | services.py:474-477 | an update keeps keys unique |
| `Devices.SplitName` | services.py:245-246 | with a space, brand + " " + model is the name and the brand has no space; without one the model is empty |
| `Devices.SplitNameJoin` | services.py:245-246 | splitting "brand model" gives back a space-free brand and the model |
| `Links.InsertLink` | services.py:265-267 | insert-or-ignore adds exactly the new edge to the table's members |
| `Links.InsertAllMembers` | services.py:261-269 | after `InsertAll`, the model of the insert loop, the table holds exactly the old edges plus one edge per listed device |
| `Links.InsertAllNoDuplicates` | services.py:261-269 | insert-or-ignore never creates a duplicate edge |
| `Links.InsertAllExtends` | services.py:261-269 | the old table is kept unchanged as a prefix |
| `Links.InsertAllPresent` | services.py:261-269 | inserting edges that are all present changes nothing |
| `Links.InsertAllIdempotent` | services.py:261-269 | adding the same list twice is the same as adding it once |
| `Links.LinkTargets` | services.py:271-277 | a target is returned iff the table has the edge from the device to it |
| `Links.LinkTargetsDistinct` | services.py:271-277 | without duplicate edges the returned targets are distinct |
| `Resolver.DisplayList` | services.py:38-41 | one entry per catalog row, in row order, carrying that row; each display name has no blank at either end |
| `Resolver.Brands` | services.py:291 | exactly the brands of the display list, each once |
| `Resolver.BestIndex` | services.py:284 | the first choice whose score is maximal |
| `Resolver.BestMatch` | services.py:279-288 | a match is a choice scoring at least the threshold and no less than any other choice, and the first such choice on a tie; there is no match iff every choice scores below the threshold |
| `Resolver.FirstIndexByName` | services.py:455-457 | the position of the first entry with the name, or the list length |
| `Resolver.FirstByName` | services.py:372 | nothing iff no entry has the name; otherwise the row of the first entry with that name |
| `Resolver.FindByName` | services.py:455-457 | the scan returns the row of the first entry with the name |
| `Resolver.ResolveSpecFound` | services.py:450-457 | for `ResolveSpec`, the model of `get_phone`: resolution fails iff the fuzzy match is missing or empty; a resolved row is a catalog row whose display name is the accepted match, scores at least the threshold, and no less than any catalog row's display name |
| `Resolver.ResolveEmptyCatalog` | services.py:279-283 | an empty catalog resolves nothing |
| `Resolver.BatchLookupRetriesEmpty` | services.py:485 | `BatchLookup`, the lookup `get_phone(name) or get_phone(normalize_glass(name) or "")`, is the name's resolution, or else the resolution of the empty query |
| `DimensionBounds.BoundsRows` | services.py:301-314 | the rows read are catalog rows whose key is a link target or the device itself, and the catalog row of every link target is read |
| `DimensionBounds.LinkedRows` | services.py:304-307 | the catalog rows of exactly the link targets that have one |
| `DimensionBounds.BoundsRowsHasDevice` | services.py:308-311 | the device's own row is always among the rows read |
| `DimensionBounds.BoundsOf` | services.py:316-357 | no bounds iff there are no rows |
| `DimensionBounds.BoundsOfPrefix` | services.py:331-346 | after each row the accumulators hold exactly the envelope and notch set of the rows seen so far |
| `DimensionBounds.BoundsCoverGroup` | services.py:301-357 | the bounds exist and the catalog row of every link target lies within them on each axis, with its notch class in the notch set |
| `DimensionBounds.BoundsOfExact` | services.py:331-357 | every row lies within [min, max] on each axis, each min and max is some row's value, and the notch set is exactly the rows' notch classes |
| `DimensionBounds.FallbackNeverTaken` | services.py:308-311 | a device with a catalog row always has bounds |
| `DimensionBounds.VerifiedDimensionBounds` | services.py:316-357 | the bounds are the envelope of the rows, and none iff there are no rows; largest and smallest are first-seen rows of maximal and minimal area |
| `Search.EnvelopeQuery` | services.py:412-431 | exactly the catalog rows inside the widened envelope whose notch is a group class or "None", in catalog order |
| `Search.FallbackQuery` | services.py:395-409 | exactly the catalog rows inside the window around the base whose notch fits the base's, in catalog order |
| `Search.VerifiedMatches` | services.py:377-393 | verified rows are catalog rows of link targets that the base fits exactly, and every such target's row is included |
| `Search.CollectVerified` | services.py:378-393 | the loop computes the verified rows |
| `Search.FilterByArea` | services.py:432-437 | the loop keeps exactly the rows whose area is at most the base area, in order |
| `Search.Unique` | services.py:439-446 | distinct keys, only input rows, the same key set as the input, input order kept |
| `Search.UniqueKeepsFirst` | services.py:439-446 | the first row with each key survives deduplication |
| `Search.DedupByKey` | services.py:439-446 | the `seen` loop computes the deduplication |
| `Search.FindCompatible` | services.py:376-448 | the method equals `SearchResult`: it returns the fallback rows or the deduplicated verified-then-envelope rows |
| `Search.SearchDistinctKeys` | services.py:439-448 | no two results share (brand, model) |
| `Search.SearchVerifiedFirst` | services.py:439-448 | all verified results come before all dimension-based ones |
| `Search.UniqueVerifiedFirst` | services.py:439-446 | deduplication keeps verified rows ahead of dimension-based ones |
| `Search.SearchMembership` | services.py:380-437 | each result is a catalog row: verified results are exactly-fitting link targets; dimension-based results lie in the widened envelope with an allowed notch and an area at most the base's, or in the fallback window with a fitting notch |
| `Search.SearchVerifiedWins` | services.py:439-446 | a device found by both sources survives once, tagged verified |
| `Search.SearchComplete` | services.py:412-437 | every catalog device in the envelope with an allowed notch and small enough area is represented |
| `Search.SearchKeepsOrder` | services.py:439-448 | results keep the order of the combined rows: verified in link order, then dimension-based in catalog order |
| `Batch.PairsUpToLength` | services.py:491-494 | after n outer rounds there are n(2k-n-1)/2 results for k devices |
| `Batch.AllPairsLength` | services.py:491-494 | k devices give k(k-1)/2 results |
| `Batch.PairsUpToMembers` | services.py:491-494 | after n rounds the results are exactly the pairs i < j with i < n |
| `Batch.AllPairsMembers` | services.py:491-494 | the results are exactly the pairs i < j, each with `check_compat(specs[i], specs[j])` |
| `Batch.PairwiseResults` | services.py:488-495 | the nested loops compute all pairs, and nothing for fewer than two devices |
| `Batch.DistinctNames` | services.py:482-486 | the cache keys are exactly the batch names, each once, ordered by the position where each name first occurs |
| `Batch.Present` | services.py:487 | the found devices in the order of the lookups, repeats kept, and no others |
| `Batch.ResolvedSpecsMembers` | services.py:482-487 | a device is kept iff some batch name looks it up |
| `Batch.BatchIgnoresRepeats` | services.py:483-486 | a name repeated anywhere after its first occurrence changes nothing in `BatchResults` |
| `Batch.BatchResultsCount` | services.py:487-495 | in `BatchResults`, the model of `check_batch_compatibility`, k resolved devices give k(k-1)/2 results, so fewer than two give none |
| `Escape.EscapeMarkdownV2` | services.py:506-512 | the result is `Escaped(text)`: one `Replace` pass per reserved character equals a single pass that puts a backslash before each reserved character |
| `Escape.ReplaceExtendsEscape` | services.py:509-510 | one more replace pass escapes one more character and never escapes a backslash twice |
| `Escape.ReservedFacts` | services.py:508 | 18 distinct reserved characters, backslash not among them |
| `Escape.UnescapeEscape` | services.py:509-510 | removing the backslashes gives back the text |
| `Escape.EscapedRoundTrip` | services.py:506-512 | escaping loses nothing: unescaping the escaped text gives it back |
| `Catalog.CompatibleResultNoFallback` | services.py:368-448 | for `CompatibleResult`, the model of `find_compatible_glasses`: in a catalog with unique keys the search fails iff the name does not resolve, and otherwise returns the deduplicated verified-then-envelope rows |
| `Catalog.DimensionQuery` | services.py:497-504 | exactly the catalog rows inside the window, in catalog order |
| `Catalog.Store.constructor` | services.py:45-99 | empty tables and no cache |
| `Catalog.Store.ClearDisplayListCache` | services.py:28-30 | the cache is reset |
| `Catalog.Store.BuildDisplayList` | services.py:32-43 | the result is the display list of the current catalog, now cached |
| `Catalog.Store.DeviceExists` | services.py:225-231 | true iff some row has the brand and model |
| `Catalog.Store.AddGlass` | services.py:233-242 | dimensions failing `ValidDimensions` (`validate_device_dimensions`, services.py:21-26) fail and change nothing; otherwise the row is inserted or replaced with the notch normalised, and the cache is reset |
| `Catalog.Store.AddPhone` | services.py:244-247 | as `AddGlass`, with brand and model split at the first space |
| `Catalog.Store.UpdatePhoneDimensions` | services.py:470-479 | invalid dimensions fail and change nothing; otherwise the row with the key is updated, nothing is inserted, and the cache is reset |
| `Catalog.Store.AddCompatibleDevices` | services.py:261-269 | the link table becomes the insert-or-ignore of each listed edge, with no duplicates |
| `Catalog.Store.GetCompatibleDevices` | services.py:271-277 | a target is returned iff the device has an edge to it |
| `Catalog.Store.FindDevicesByDimensions` | services.py:497-504 | a row is returned iff it lies in all three closed ranges |
| `Catalog.Store.NormalizeGlass` | services.py:279-288 | the best-scoring display name of the current catalog if it meets the threshold; the cache is left built |
| `Catalog.Store.NormalizeBrand` | services.py:290-298 | the best-scoring brand of the current catalog if it meets the threshold; the cache is left built |
| `Catalog.Store.GetPhone` | services.py:450-457 | the resolved catalog row; the cache is left built |
| `Catalog.Store.FindCompatibleGlasses` | services.py:368-448 | nothing for an unresolved name; otherwise the search result over the base, its link targets and its bounds; the cache is left built |
| `Catalog.Store.BatchLookupOf` | services.py:485 | the batch lookup of one name; the cache is left built |
| `Catalog.Store.CheckBatchCompatibility` | services.py:481-495 | one result per pair i < j of the devices the distinct names resolve to, and none for fewer than two; the cache is left built after a non-empty batch and untouched after an empty one |

## Left out

- Storage: SQLite connections, commits and I/O. The tables are in-memory sequences scanned in insertion order, so the order of rows is modelled, not the engine's. An `INSERT OR REPLACE` moves the replaced row to the end, as a fresh rowid would.
- Row order of the `UNION` in `get_verified_dimension_bounds`: the model reads linked rows first, then the device's own row. The order only decides which of several equal-area rows is "largest" or "smallest".
- The order of brands in `normalize_brand`: the source builds a Python set, whose iteration order is unspecified. The model uses first-seen order, which only matters when two brands tie for the best score.
- Fuzzy scoring: the `fuzzywuzzy` internals and its 0-100 range. The score is an arbitrary function into the naturals.
- Python `title()` on non-ASCII letters: only ASCII letters change case in the model.
- Floating point: dimensions are real numbers, with no IEEE rounding.
- Logging: the calls in `escape_markdown_v2` and elsewhere.
- Concurrency between request handlers, and the torn reads it allows.
- `list_devices_by_brand`, `format_compatible_devices`, the GSMArena fetching and parsing, `update_device_from_source`, device suggestions, payments, subscriptions and query counting: none of these is part of this model.
- `bot.py` and `config.py` are not part of this model. The constants from `config.py` are parameters.
- Store.Valid: its cache clause (the cache, when set, is the display list of the current catalog) holds across the modelled writers only. `update_device_from_source` (services.py:627-671) updates `glasses` without resetting the cache, and stores the scraper's notch class without normalising it. That writer is not modelled, so neither effect is.
- A foreign key from `compatible_devices` to `glasses` is declared but never enforced. Links may dangle, and the model allows that.

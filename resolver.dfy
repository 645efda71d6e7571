/** Fuzzy name resolution (`normalize_glass`, `normalize_brand`,
    services.py:279-298) over the display list that `_build_display_list`
    derives from the catalog (services.py:32-43). The similarity score of the
    fuzzy-matching library is a parameter: nothing is assumed about it. */
module Resolver {
  import opened Util
  import opened Devices
  import PyText

  /** A similarity score between a query and a candidate (0 to 100 in the
      library the source uses). */
  type Scorer = (string, string) -> nat

  /** One entry of the display list: the name shown to users and its row. */
  datatype DisplayEntry = DisplayEntry(name: string, spec: Spec)

  /** `f"{b} {m}".strip()` */
  function DisplayName(s: Spec): string
  {
    PyText.Strip(s.brand + " " + s.model)
  }

  /** The display list built from the catalog rows: one entry per row, in
      row order, each carrying its row and a name with no blank at either
      end. */
  function DisplayList(rows: seq<Spec>): (list: seq<DisplayEntry>)
    ensures |list| == |rows|
    ensures forall i :: 0 <= i < |rows| ==> list[i].spec == rows[i]
    ensures forall i :: 0 <= i < |rows| ==> var name := list[i].name;
      name == [] || (!PyText.IsSpace(name[0]) && !PyText.IsSpace(name[|name| - 1]))
  {
    assert forall s :: s in rows ==> var name := DisplayName(s);
      name == [] || (!PyText.IsSpace(name[0]) && !PyText.IsSpace(name[|name| - 1])) by {
      forall s | s in rows {
        PyText.StripTrimmed(s.brand + " " + s.model);
      }
    }
    seq(|rows|, i requires 0 <= i < |rows| => DisplayEntry(DisplayName(rows[i]), rows[i]))
  }

  function Names(list: seq<DisplayEntry>): (names: seq<string>)
    ensures |names| == |list| && forall i :: 0 <= i < |list| ==> names[i] == list[i].name
  {
    seq(|list|, i requires 0 <= i < |list| => list[i].name)
  }

  /** The distinct brands of the display list, in first-seen order (the
      source builds a Python set here, whose iteration order is arbitrary). */
  function Brands(list: seq<DisplayEntry>): (brands: seq<string>)
    ensures forall b :: b in brands <==> exists i :: 0 <= i < |list| && list[i].spec.brand == b
    ensures forall i, j :: 0 <= i < j < |brands| ==> brands[i] != brands[j]
  {
    if list == [] then []
    else
      var init := Brands(list[..|list| - 1]);
      var b := list[|list| - 1].spec.brand;
      assert forall i :: 0 <= i < |list| - 1 ==> list[..|list| - 1][i] == list[i];
      if b in init then init else init + [b]
  }

  /** Python's `max` over the scores: the index of the first best-scoring
      choice. */
  function BestIndex(choices: seq<string>, query: string, score: Scorer): (k: nat)
    requires choices != []
    ensures k < |choices|
    ensures forall j :: 0 <= j < |choices| ==> score(query, choices[j]) <= score(query, choices[k])
    ensures forall j :: 0 <= j < k ==> score(query, choices[j]) < score(query, choices[k])
    decreases |choices|
  {
    if |choices| == 1 then 0
    else
      var k := BestIndex(choices[..|choices| - 1], query, score);
      assert forall j :: 0 <= j < |choices| - 1 ==> choices[..|choices| - 1][j] == choices[j];
      if score(query, choices[|choices| - 1]) > score(query, choices[k]) then |choices| - 1 else k
  }

  /** `process.extractOne(query, choices)` followed by the threshold test:
      the best-scoring choice if it scores at least `threshold`, otherwise
      nothing; nothing as well when there are no choices. */
  function BestMatch(query: string, choices: seq<string>, score: Scorer, threshold: int): (r: Option<string>)
    ensures r.Some? ==> r.value in choices && score(query, r.value) >= threshold
    ensures r.Some? ==> forall c :: c in choices ==> score(query, c) <= score(query, r.value)
    ensures r.None? <==> forall c :: c in choices ==> score(query, c) < threshold
    ensures r.Some? ==> exists k :: (0 <= k < |choices| && choices[k] == r.value &&
      forall j :: 0 <= j < k ==> score(query, choices[j]) < score(query, r.value))
  {
    if choices == [] then None
    else
      var k := BestIndex(choices, query, score);
      if score(query, choices[k]) >= threshold then Some(choices[k]) else None
  }

  /** The position of the first display entry carrying `name`, or the
      length of the list when there is none. */
  function FirstIndexByName(list: seq<DisplayEntry>, name: string): (k: nat)
    ensures k <= |list|
    ensures k < |list| ==> list[k].name == name
    ensures forall j :: 0 <= j < k ==> list[j].name != name
    decreases |list|
  {
    if list == [] then 0
    else if list[0].name == name then 0
    else 1 + FirstIndexByName(list[1..], name)
  }

  /** The row of the first display entry carrying `name` (the generator
      `next(filter(...))` of services.py:372 and the loop of get_phone). */
  function FirstByName(list: seq<DisplayEntry>, name: string): (r: Option<Spec>)
    ensures r.None? <==> name !in Names(list)
    ensures r.Some? ==> DisplayEntry(name, r.value) in list
    ensures r.Some? ==> exists k :: (0 <= k < |list| && list[k] == DisplayEntry(name, r.value) &&
      forall j :: 0 <= j < k ==> list[j].name != name)
  {
    var k := FirstIndexByName(list, name);
    assert name in Names(list) ==> exists j :: 0 <= j < |list| && list[j].name == name;
    if k < |list| then Some(list[k].spec) else None
  }

  /** The scan of `get_phone` (services.py:454-457): the row of the first
      entry carrying `name`. */
  method FindByName(list: seq<DisplayEntry>, name: string) returns (r: Option<Spec>)
    ensures r == FirstByName(list, name)
  {
    var i := 0;
    while i < |list|
      invariant 0 <= i <= |list|
      invariant forall j :: 0 <= j < i ==> list[j].name != name
    {
      if list[i].name == name {
        assert FirstIndexByName(list, name) == i;
        return Some(list[i].spec);
      }
      i := i + 1;
    }
    return None;
  }

  /** `normalize_glass` then the row lookup of `get_phone`: the row whose
      display name is the accepted match. An empty match counts as no match
      (`if not display`). */
  function ResolveSpec(rows: seq<Spec>, query: string, score: Scorer, threshold: int): Option<Spec>
  {
    var display := BestMatch(query, Names(DisplayList(rows)), score, threshold);
    if display.None? || display.value == "" then None
    else FirstByName(DisplayList(rows), display.value)
  }

  /** A resolved name always yields a catalog row, and that row's display
      name is the accepted match; resolution fails exactly when no display
      name is a non-empty match. */
  lemma ResolveSpecFound(rows: seq<Spec>, query: string, score: Scorer, threshold: int)
    ensures var display := BestMatch(query, Names(DisplayList(rows)), score, threshold);
      ResolveSpec(rows, query, score, threshold).None? <==> (display.None? || display.value == "")
    ensures var r := ResolveSpec(rows, query, score, threshold);
      r.Some? ==> r.value in rows && score(query, DisplayName(r.value)) >= threshold
    ensures var display := BestMatch(query, Names(DisplayList(rows)), score, threshold);
      var r := ResolveSpec(rows, query, score, threshold);
      r.Some? ==> (display.Some? && DisplayName(r.value) == display.value &&
        forall s :: s in rows ==> score(query, DisplayName(s)) <= score(query, DisplayName(r.value)))
  {
    var list := DisplayList(rows);
    var r := ResolveSpec(rows, query, score, threshold);
    if r.Some? {
      var display := BestMatch(query, Names(list), score, threshold).value;
      var k := FirstIndexByName(list, display);
      assert list[k].spec == rows[k] && list[k].name == DisplayName(rows[k]);
      assert Names(list)[k] == DisplayName(rows[k]);
      forall s | s in rows ensures score(query, DisplayName(s)) <= score(query, display) {
        var i :| 0 <= i < |rows| && rows[i] == s;
        assert Names(list)[i] == DisplayName(s);
      }
    }
  }

  /** An empty catalog resolves nothing. */
  lemma ResolveEmptyCatalog(query: string, score: Scorer, threshold: int)
    ensures ResolveSpec([], query, score, threshold) == None
  {
  }

  /** The lookup of `check_batch_compatibility` (services.py:485):
      `get_phone(name) or get_phone(normalize_glass(name) or "")`. */
  function BatchLookup(rows: seq<Spec>, name: string, score: Scorer, threshold: int): Option<Spec>
  {
    var first := ResolveSpec(rows, name, score, threshold);
    if first.Some? then first
    else
      var display := BestMatch(name, Names(DisplayList(rows)), score, threshold);
      ResolveSpec(rows, if display.None? then "" else display.value, score, threshold)
  }

  /** The retry never tries anything but the empty query: the first lookup
      fails exactly when the name has no non-empty match, and then
      `normalize_glass(name) or ""` is "". */
  lemma BatchLookupRetriesEmpty(rows: seq<Spec>, name: string, score: Scorer, threshold: int)
    ensures BatchLookup(rows, name, score, threshold) ==
      if ResolveSpec(rows, name, score, threshold).Some? then ResolveSpec(rows, name, score, threshold)
      else ResolveSpec(rows, "", score, threshold)
  {
    ResolveSpecFound(rows, name, score, threshold);
  }
}

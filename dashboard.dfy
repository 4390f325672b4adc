/** The city selection and autocomplete logic of the React dashboard
    (client/src/Dashboard.js): a static catalog, a search term with its
    suggestions and a highlighted suggestion, the ordered list of selected
    cities, and the browser storage slot `selectedCities` that mirrors it.
    Network answers (the catalog, each city's weather) are parameters of the
    handlers; `toLowerCase` is the per-character function `lower`. */
module Dashboard {
  import opened Text
  import opened Wrappers

  /** A catalog city as the `/api/cities` route returns it. */
  datatype CatalogCity = CatalogCity(id: string, name: string, country: string, lat: real, lon: real)

  /** The `/api/weather` response for a city, carried as it came. */
  datatype WeatherData = WeatherData(description: string, temperature: real, stationName: string)

  /** An entry of the selection: the catalog city's fields spread out, its
      weather and the blink flag shown on a repeated selection. */
  datatype SelectedCity = SelectedCity(city: CatalogCity, weatherData: WeatherData, blink: bool) {
    function Name(): string { city.name }
  }

  /** The outcome of the weather request of a selection. */
  datatype FetchResult = Fetched(data: WeatherData) | FetchFailed

  /** The keys the search box reacts to; every other key is `OtherKey`. */
  datatype Key = ArrowDown | ArrowUp | Enter | OtherKey

  /** `s.toLowerCase()`, one character at a time. */
  function Lowered(lower: char -> char, s: string): (r: string)
    ensures |r| == |s|
    ensures forall i :: 0 <= i < |s| ==> r[i] == lower(s[i])
  {
    seq(|s|, i requires 0 <= i < |s| => lower(s[i]))
  }

  /** The suggestion test: the lowered city name contains the lowered term. */
  predicate NameContains(lower: char -> char, city: CatalogCity, term: string) {
    Contains(Lowered(lower, city.name), Lowered(lower, term))
  }

  /** The exact-match test: the lowered name equals the lowered term. */
  predicate NameEquals(lower: char -> char, city: CatalogCity, term: string) {
    Lowered(lower, city.name) == Lowered(lower, term)
  }

  /** `cities.filter(...)` for the suggestions: exactly the catalog cities
      whose lowered name contains the lowered term. */
  function Matches(lower: char -> char, cities: seq<CatalogCity>, term: string): (r: seq<CatalogCity>)
    ensures |r| <= |cities|
    ensures forall c :: c in r <==> c in cities && NameContains(lower, c, term)
    decreases |cities|
  {
    if |cities| == 0 then []
    else (if NameContains(lower, cities[0], term) then [cities[0]] else []) + Matches(lower, cities[1..], term)
  }

  /** Filtering keeps the catalog order: the matches of a concatenation are
      the matches of its parts, one after the other. */
  lemma {:induction false} MatchesAppend(lower: char -> char, a: seq<CatalogCity>, b: seq<CatalogCity>, term: string)
    ensures Matches(lower, a + b, term) == Matches(lower, a, term) + Matches(lower, b, term)
    decreases |a|
  {
    if |a| > 0 {
      assert (a + b)[1..] == a[1..] + b;
      MatchesAppend(lower, a[1..], b, term);
    } else {
      assert a + b == b;
    }
  }

  /** `cities.find(...)` for the exact match, by position: the index of the
      first catalog city whose lowered name equals the lowered term, or -1. */
  function FindExactIndex(lower: char -> char, cities: seq<CatalogCity>, term: string): (r: int)
    ensures -1 <= r < |cities|
    ensures r == -1 <==> forall i :: 0 <= i < |cities| ==> !NameEquals(lower, cities[i], term)
    ensures r >= 0 ==> (NameEquals(lower, cities[r], term)
                        && forall j :: 0 <= j < r ==> !NameEquals(lower, cities[j], term))
    decreases |cities|
  {
    if |cities| == 0 then -1
    else if NameEquals(lower, cities[0], term) then 0
    else
      var k := FindExactIndex(lower, cities[1..], term);
      if k == -1 then -1 else k + 1
  }

  /** `selectedCities.findIndex(c => c.name === name)`: the index of the first
      entry with that name, or -1 when there is none. */
  function FindIndexByName(selected: seq<SelectedCity>, name: string): (r: int)
    ensures -1 <= r < |selected|
    ensures r == -1 <==> forall i :: 0 <= i < |selected| ==> selected[i].Name() != name
    ensures r >= 0 ==> (selected[r].Name() == name
                        && forall j :: 0 <= j < r ==> selected[j].Name() != name)
    decreases |selected|
  {
    if |selected| == 0 then -1
    else if selected[0].Name() == name then 0
    else
      var k := FindIndexByName(selected[1..], name);
      if k == -1 then -1 else k + 1
  }

  /** `selectedCities.filter(c => c.name !== name)`: exactly the entries with
      another name. */
  function RemoveByName(selected: seq<SelectedCity>, name: string): (r: seq<SelectedCity>)
    ensures |r| <= |selected|
    ensures forall x :: x in r <==> x in selected && x.Name() != name
    decreases |selected|
  {
    if |selected| == 0 then []
    else (if selected[0].Name() != name then [selected[0]] else []) + RemoveByName(selected[1..], name)
  }

  /** Deleting keeps the relative order of what remains. */
  lemma {:induction false} RemoveByNameAppend(a: seq<SelectedCity>, b: seq<SelectedCity>, name: string)
    ensures RemoveByName(a + b, name) == RemoveByName(a, name) + RemoveByName(b, name)
    decreases |a|
  {
    if |a| > 0 {
      assert (a + b)[1..] == a[1..] + b;
      RemoveByNameAppend(a[1..], b, name);
    } else {
      assert a + b == b;
    }
  }

  /** Deleting a name that is not selected changes nothing. */
  lemma {:induction false} RemoveAbsentName(selected: seq<SelectedCity>, name: string)
    requires FindIndexByName(selected, name) == -1
    ensures RemoveByName(selected, name) == selected
    decreases |selected|
  {
    if |selected| > 0 {
      assert selected[0].Name() != name;
      RemoveAbsentName(selected[1..], name);
      assert selected == [selected[0]] + selected[1..];
    }
  }

  /** No two entries of the selection have the same name. */
  predicate DistinctNames(selected: seq<SelectedCity>) {
    forall i, j :: 0 <= i < j < |selected| ==> selected[i].Name() != selected[j].Name()
  }

  /** Appending a city whose name is not yet selected keeps names distinct. */
  lemma AppendKeepsDistinct(selected: seq<SelectedCity>, entry: SelectedCity)
    requires DistinctNames(selected) && FindIndexByName(selected, entry.Name()) == -1
    ensures DistinctNames(selected + [entry])
  {
  }

  /** Deleting keeps names distinct. */
  lemma {:induction false} RemoveKeepsDistinct(selected: seq<SelectedCity>, name: string)
    requires DistinctNames(selected)
    ensures DistinctNames(RemoveByName(selected, name))
    decreases |selected|
  {
    if |selected| > 0 {
      var rest := RemoveByName(selected[1..], name);
      RemoveKeepsDistinct(selected[1..], name);
      if selected[0].Name() != name {
        forall x | x in rest ensures x.Name() != selected[0].Name() {
          var k :| 0 < k < |selected| && selected[k] == x;
        }
      }
    }
  }

  /** Changing the blink flag of one entry keeps names distinct. */
  lemma SetBlinkKeepsDistinct(selected: seq<SelectedCity>, i: int, blink: bool)
    requires DistinctNames(selected) && 0 <= i < |selected|
    ensures DistinctNames(selected[i := selected[i].(blink := blink)])
  {
    var s := selected[i := selected[i].(blink := blink)];
    assert forall k :: 0 <= k < |s| ==> s[k].Name() == selected[k].Name();
  }

  /** ArrowDown: one step further, but never past the last suggestion. */
  function MoveDown(index: int, count: int): (r: int)
    ensures index <= r <= index + 1
    ensures r == index + 1 <==> index < count - 1
    ensures -1 <= index < count ==> -1 <= r < count
  {
    if index < count - 1 then index + 1 else index
  }

  /** ArrowUp: one step back, but never below the first suggestion; from -1
      (nothing highlighted) it stays -1. */
  function MoveUp(index: int): (r: int)
    ensures index - 1 <= r <= index
    ensures r == index - 1 <==> index > 0
    ensures index >= -1 ==> r >= -1
    ensures index == -1 ==> r == -1
  {
    if index > 0 then index - 1 else index
  }

  /** The city Enter selects: the highlighted suggestion when the index is
      valid, else the first suggestion when there is one, else the first
      catalog city whose name equals the term up to case, else none. */
  function ResolveEnter(lower: char -> char, suggested: seq<CatalogCity>, highlighted: int,
                        cities: seq<CatalogCity>, term: string): (r: Option<CatalogCity>)
    ensures 0 <= highlighted < |suggested| ==> r == Some(suggested[highlighted])
    ensures !(0 <= highlighted < |suggested|) && |suggested| > 0 ==> r == Some(suggested[0])
    ensures |suggested| == 0 ==>
              (r.None? <==> forall c :: c in cities ==> !NameEquals(lower, c, term))
    ensures |suggested| == 0 && r.Some? ==>
              r.value in cities && NameEquals(lower, r.value, term)
    ensures |suggested| == 0 && r.Some? ==>
              exists k :: 0 <= k < |cities| && r.value == cities[k]
                          && forall j :: 0 <= j < k ==> !NameEquals(lower, cities[j], term)
  {
    if 0 <= highlighted < |suggested| then Some(suggested[highlighted])
    else if |suggested| > 0 then Some(suggested[0])
    else
      var k := FindExactIndex(lower, cities, term);
      if k >= 0 then Some(cities[k]) else None
  }

  /** A lowered name equal to the lowered term also contains it. */
  lemma EqualNameContains(lower: char -> char, city: CatalogCity, term: string)
    requires NameEquals(lower, city, term)
    ensures NameContains(lower, city, term)
  {
    var s := Lowered(lower, city.name);
    assert IsPrefix(s, s);
  }

  /** When the suggestions are the current filter of a non-empty term, Enter
      selects nothing exactly when there are no suggestions, and what it
      selects is always a catalog city matching the term: the exact-match
      fallback only matters when the suggestions are out of date. */
  lemma EnterOnCurrentSuggestions(lower: char -> char, cities: seq<CatalogCity>, term: string, highlighted: int)
    ensures var suggested := Matches(lower, cities, term);
            var r := ResolveEnter(lower, suggested, highlighted, cities, term);
            (r.None? <==> suggested == [])
            && (r.Some? ==> r.value in cities && NameContains(lower, r.value, term))
  {
    var suggested := Matches(lower, cities, term);
    if suggested == [] {
      forall c | c in cities ensures !NameEquals(lower, c, term) {
        if NameEquals(lower, c, term) { EqualNameContains(lower, c, term); }
      }
    }
  }

  /** What the persistence effect leaves in the storage slot for a selection:
      the whole list when it is non-empty, nothing when it is empty. */
  function Slot(selected: seq<SelectedCity>): (r: Option<seq<SelectedCity>>)
    ensures r.None? <==> selected == []
  {
    if |selected| > 0 then Some(selected) else None
  }

  /** The list the restore step adopts from a stored slot: the stored list,
      or nothing when the slot is empty; it undoes `Slot`. */
  function Restored(slot: Option<seq<SelectedCity>>): (r: seq<SelectedCity>)
    ensures slot.Some? ==> r == slot.value
    ensures slot.None? ==> r == []
    ensures forall selected :: Slot(selected) == slot ==> r == selected
  {
    if slot.Some? then slot.value else []
  }

  /** Storing and restoring gives back the whole list, blink flags and weather
      included. */
  lemma SlotRoundTrip(selected: seq<SelectedCity>)
    ensures Restored(Slot(selected)) == selected
  {
  }

  /** The dashboard component's state. */
  class DashboardState {
    const lower: char -> char
    var cities: seq<CatalogCity>
    var searchTerm: string
    var suggested: seq<CatalogCity>
    var highlighted: int
    var selected: seq<SelectedCity>
    /** The `selectedCities` slot of the browser's local storage. */
    var storage: Option<seq<SelectedCity>>

    /** The storage slot mirrors the selection. */
    predicate Persisted()
      reads this
    {
      storage == Slot(selected)
    }

    /** The highlighted index is -1 or points at a suggestion. */
    predicate HighlightInRange()
      reads this
    {
      -1 <= highlighted < |suggested|
    }

    /** The state a page load starts from; `saved` is what the storage slot
        holds from an earlier visit. */
    constructor (lower: char -> char, saved: Option<seq<SelectedCity>>)
      ensures this.lower == lower && storage == saved
      ensures cities == [] && searchTerm == "" && suggested == [] && highlighted == -1 && selected == []
    {
      this.lower := lower;
      cities, searchTerm, suggested, highlighted, selected := [], "", [], -1, [];
      storage := saved;
    }

    /** The persistence effect, run whenever the selection is set: write the
        list when it is non-empty, remove the slot when it is empty. */
    method PersistEffect()
      modifies this
      ensures Persisted()
      ensures cities == old(cities) && searchTerm == old(searchTerm) && suggested == old(suggested)
      ensures highlighted == old(highlighted) && selected == old(selected)
    {
      storage := Slot(selected);
    }

    /** The part of the catalog effect after the catalog request settles:
        when it succeeded, adopt the catalog and then, in the same block,
        the list found in the storage slot (and persist it again); when it
        failed, change nothing. */
    method LoadCatalog(response: Option<seq<CatalogCity>>)
      modifies this
      ensures response.None? ==>
                cities == old(cities) && selected == old(selected) && storage == old(storage)
      ensures response.Some? ==> cities == response.value
      ensures response.Some? && old(storage).Some? ==> selected == old(storage).value && Persisted()
      ensures response.Some? && old(storage).None? ==> selected == old(selected) && storage == old(storage)
      ensures searchTerm == old(searchTerm) && suggested == old(suggested) && highlighted == old(highlighted)
    {
      if response.Some? {
        cities := response.value;
        if storage.Some? {
          selected := storage.value;
          PersistEffect();
        }
      }
    }

    /** Page load as written: the persistence effect runs first, on the
        empty initial selection, and removes the slot; the catalog request
        settles later and finds the slot empty. Whatever was saved, the
        selection starts empty and the slot is gone. */
    method MountAsWritten(response: Option<seq<CatalogCity>>)
      requires selected == []
      modifies this
      ensures selected == [] && storage == None
      ensures response.Some? ==> cities == response.value
      ensures response.None? ==> cities == old(cities)
      ensures searchTerm == old(searchTerm) && suggested == old(suggested) && highlighted == old(highlighted)
    {
      PersistEffect();
      LoadCatalog(response);
    }

    /** Page load as intended: the saved list is read before the first
        persistence effect can remove it, so a saved selection comes back
        when the catalog request succeeds. */
    method Mount(response: Option<seq<CatalogCity>>)
      requires selected == []
      modifies this
      ensures response.Some? ==> cities == response.value
      ensures response.None? ==> cities == old(cities)
      ensures response.Some? && old(storage).Some? ==> selected == old(storage).value
      ensures (response.None? || old(storage).None?) ==> selected == []
      ensures Persisted()
      ensures searchTerm == old(searchTerm) && suggested == old(suggested) && highlighted == old(highlighted)
    {
      LoadCatalog(response);
      PersistEffect();
    }

    /** `handleSearchChange`: store the term; a non-empty term recomputes the
        suggestions and clears the highlight, an empty one clears the
        suggestions and leaves the highlight as it was. */
    method SearchChange(term: string)
      modifies this
      ensures searchTerm == term
      ensures |term| > 0 ==> suggested == Matches(lower, cities, term) && highlighted == -1
      ensures |term| > 0 ==> HighlightInRange()
      ensures |term| == 0 ==> suggested == [] && highlighted == old(highlighted)
      ensures cities == old(cities) && selected == old(selected) && storage == old(storage)
    {
      searchTerm := term;
      if |term| > 0 {
        suggested := Matches(lower, cities, term);
        highlighted := -1;
      } else {
        suggested := [];
      }
    }

    /** The effect of selecting `city` with weather answer `fetch`: a city
        already selected by name only gets its blink flag set, with no
        request and the search left alone; a new city is appended after a
        successful request and the search is cleared; a failed request
        changes nothing. */
    twostate predicate SelectEffect(city: CatalogCity, fetch: FetchResult)
      reads this
    {
      var i := FindIndexByName(old(selected), city.name);
      cities == old(cities)
      && (if i != -1 then
            selected == old(selected)[i := old(selected)[i].(blink := true)]
            && searchTerm == old(searchTerm) && suggested == old(suggested)
            && highlighted == old(highlighted) && Persisted()
          else if fetch.Fetched? then
            selected == old(selected) + [SelectedCity(city, fetch.data, false)]
            && searchTerm == "" && suggested == [] && highlighted == -1 && Persisted()
          else
            selected == old(selected) && storage == old(storage)
            && searchTerm == old(searchTerm) && suggested == old(suggested)
            && highlighted == old(highlighted))
    }

    /** `handleCitySelect(city)`. `requested` says whether the weather request
        was made; `blinkIndex` is the index whose blink the timer will reset,
        or -1. */
    method SelectCity(city: CatalogCity, fetch: FetchResult) returns (requested: bool, blinkIndex: int)
      modifies this
      ensures SelectEffect(city, fetch)
      ensures blinkIndex == FindIndexByName(old(selected), city.name)
      ensures requested <==> blinkIndex == -1
      ensures DistinctNames(old(selected)) ==> DistinctNames(selected)
      ensures old(HighlightInRange()) ==> HighlightInRange()
    {
      blinkIndex := FindIndexByName(selected, city.name);
      if blinkIndex != -1 {
        if DistinctNames(selected) { SetBlinkKeepsDistinct(selected, blinkIndex, true); }
        selected := selected[blinkIndex := selected[blinkIndex].(blink := true)];
        PersistEffect();
        requested := false;
        return;
      }
      requested := true;
      match fetch {
        case Fetched(data) =>
          var entry := SelectedCity(city, data, false);
          if DistinctNames(selected) { AppendKeepsDistinct(selected, entry); }
          selected := selected + [entry];
          PersistEffect();
          searchTerm, suggested, highlighted := "", [], -1;
        case FetchFailed =>
      }
    }

    /** The blink timer firing for `index`: that entry's blink flag goes back
        to false and nothing else changes. */
    method EndBlink(index: int)
      modifies this
      ensures 0 <= index < |old(selected)| ==>
                selected == old(selected)[index := old(selected)[index].(blink := false)]
      ensures !(0 <= index < |old(selected)|) ==> selected == old(selected)
      ensures Persisted()
      ensures cities == old(cities) && searchTerm == old(searchTerm) && suggested == old(suggested)
      ensures highlighted == old(highlighted)
      ensures DistinctNames(old(selected)) ==> DistinctNames(selected)
    {
      if 0 <= index < |selected| {
        if DistinctNames(selected) { SetBlinkKeepsDistinct(selected, index, false); }
        selected := selected[index := selected[index].(blink := false)];
      }
      PersistEffect();
    }

    /** `handleDeleteCity(name)`: drop every entry with that name. */
    method DeleteCity(name: string)
      modifies this
      ensures selected == RemoveByName(old(selected), name)
      ensures FindIndexByName(old(selected), name) == -1 ==> selected == old(selected)
      ensures Persisted()
      ensures cities == old(cities) && searchTerm == old(searchTerm) && suggested == old(suggested)
      ensures highlighted == old(highlighted)
      ensures DistinctNames(old(selected)) ==> DistinctNames(selected)
    {
      if FindIndexByName(selected, name) == -1 { RemoveAbsentName(selected, name); }
      if DistinctNames(selected) { RemoveKeepsDistinct(selected, name); }
      selected := RemoveByName(selected, name);
      PersistEffect();
    }

    /** `handleKeyPress(key)`; `fetch` is the weather answer used if Enter
        selects a city. */
    method KeyPress(key: Key, fetch: FetchResult) returns (requested: bool)
      modifies this
      ensures key == ArrowDown ==> highlighted == MoveDown(old(highlighted), |old(suggested)|)
      ensures key == ArrowUp ==> highlighted == MoveUp(old(highlighted))
      ensures key != Enter ==>
                !requested && cities == old(cities) && searchTerm == old(searchTerm)
                && suggested == old(suggested) && selected == old(selected) && storage == old(storage)
      ensures key == OtherKey ==> highlighted == old(highlighted)
      ensures key == Enter ==>
                var pick := ResolveEnter(lower, old(suggested), old(highlighted), old(cities), old(searchTerm));
                (pick.None? ==> !requested && unchanged(this))
                && (pick.Some? ==> SelectEffect(pick.value, fetch)
                                   && (requested <==> FindIndexByName(old(selected), pick.value.name) == -1))
      ensures old(HighlightInRange()) ==> HighlightInRange()
      ensures old(highlighted) >= -1 ==> highlighted >= -1
      ensures DistinctNames(old(selected)) ==> DistinctNames(selected)
    {
      requested := false;
      match key {
        case ArrowDown =>
          highlighted := MoveDown(highlighted, |suggested|);
        case ArrowUp =>
          highlighted := MoveUp(highlighted);
        case Enter =>
          var pick := ResolveEnter(lower, suggested, highlighted, cities, searchTerm);
          if pick.Some? {
            var blinkIndex;
            requested, blinkIndex := SelectCity(pick.value, fetch);
          }
        case OtherKey =>
      }
    }
  }

  /** A saved selection is lost on a page load as written. */
  method SavedSelectionLostOnLoad(lower: char -> char, saved: seq<SelectedCity>, catalog: seq<CatalogCity>)
    returns (restored: seq<SelectedCity>, slot: Option<seq<SelectedCity>>)
    ensures restored == [] && slot == None
  {
    var page := new DashboardState(lower, Some(saved));
    page.MountAsWritten(Some(catalog));
    restored, slot := page.selected, page.storage;
  }

  /** With the saved list read before the first persistence effect, a page
      load restores it and keeps it stored. */
  method SavedSelectionRestored(lower: char -> char, saved: seq<SelectedCity>, catalog: seq<CatalogCity>)
    returns (restored: seq<SelectedCity>, slot: Option<seq<SelectedCity>>)
    ensures restored == saved && slot == Slot(saved)
  {
    var page := new DashboardState(lower, Some(saved));
    page.Mount(Some(catalog));
    restored, slot := page.selected, page.storage;
  }
}

/**
 * The athlete lists of the "my orbit" and search screens: the category and name filters,
 * the `data || []` defaulting of a fetch, and the set of followed ids built on load.
 */
module AthleteFilters {
  import opened JsText
  import opened JsArray

  type AthleteId = int

  /** An athlete row as fetched; `category` may be missing. */
  datatype Athlete = Athlete(id: AthleteId, name: string, category: Option<string>)

  const AllCategories := "all"

  // ---------------------------------------------------------------------------
  // Predicates of the two filters
  // ---------------------------------------------------------------------------

  /** `a.category?.toLowerCase() === selected.toLowerCase()`: a missing category never matches. */
  predicate InCategory(a: Athlete, selected: string) {
    a.category.Some? && Lower(a.category.value) == Lower(selected)
  }

  /** `a.name.toLowerCase().includes(text.toLowerCase())`. */
  predicate NameMatches(a: Athlete, text: string) {
    Contains(Lower(a.name), Lower(text))
  }

  /** The athlete passes every filter that is switched on: the category one unless the
      category is 'all', the name one unless the search text is empty. */
  predicate PassesOrbitFilters(a: Athlete, category: string, searchText: string) {
    (category != AllCategories ==> InCategory(a, category)) &&
    (searchText != "" ==> NameMatches(a, searchText))
  }

  // ---------------------------------------------------------------------------
  // My orbit screen
  // ---------------------------------------------------------------------------

  /** The filter effect of the "my orbit" screen: by category, then by name. */
  function OrbitFilter(all: seq<Athlete>, category: string, searchText: string): (r: seq<Athlete>)
    ensures IsSubsequence(r, all)
    ensures forall i :: 0 <= i < |r| ==> PassesOrbitFilters(r[i], category, searchText)
    ensures forall i :: 0 <= i < |all| && PassesOrbitFilters(all[i], category, searchText) ==> all[i] in r
    ensures forall a :: multiset(r)[a] == if PassesOrbitFilters(a, category, searchText) then multiset(all)[a] else 0
    ensures category == AllCategories && searchText == "" ==> r == all
  {
    var byCategory := if category != AllCategories then Filter(all, a => InCategory(a, category)) else all;
    var bySearch := if searchText != "" then Filter(byCategory, a => NameMatches(a, searchText)) else byCategory;
    var passes := a => PassesOrbitFilters(a, category, searchText);
    StagesAreOneFilter(all, byCategory, bySearch, category, searchText, passes);
    FilterIsSubsequence(all, passes);
    FilterCounts(all, passes);
    bySearch
  }

  /** The category stage followed by the name stage keeps exactly what one filter by both
      predicates keeps. */
  lemma StagesAreOneFilter(all: seq<Athlete>, byCategory: seq<Athlete>, bySearch: seq<Athlete>,
                           category: string, searchText: string, passes: Athlete -> bool)
    requires forall a :: passes(a) == PassesOrbitFilters(a, category, searchText)
    requires byCategory == if category != AllCategories then Filter(all, a => InCategory(a, category)) else all
    requires bySearch == if searchText != "" then Filter(byCategory, a => NameMatches(a, searchText)) else byCategory
    ensures bySearch == Filter(all, passes)
  {
    var inCategory := a => InCategory(a, category);
    var matches := a => NameMatches(a, searchText);
    if category == AllCategories && searchText == "" {
      FilterKeepsAll(all, passes);
    } else if category == AllCategories {
      FilterCongruent(all, matches, passes);
    } else if searchText == "" {
      FilterCongruent(all, inCategory, passes);
    } else {
      FilterFusion(all, inCategory, matches, passes);
    }
  }

  /** The "my orbit" filter is one filter by both predicates. */
  lemma OrbitFilterIsFilter(all: seq<Athlete>, category: string, searchText: string)
    ensures OrbitFilter(all, category, searchText) == Filter(all, a => PassesOrbitFilters(a, category, searchText))
  {
    var byCategory := if category != AllCategories then Filter(all, a => InCategory(a, category)) else all;
    var bySearch := if searchText != "" then Filter(byCategory, a => NameMatches(a, searchText)) else byCategory;
    StagesAreOneFilter(all, byCategory, bySearch, category, searchText, a => PassesOrbitFilters(a, category, searchText));
  }

  /** Filtering the filtered list again with the same settings changes nothing. */
  lemma OrbitFilterIdempotent(all: seq<Athlete>, category: string, searchText: string)
    ensures OrbitFilter(OrbitFilter(all, category, searchText), category, searchText)
            == OrbitFilter(all, category, searchText)
  {
    var r := OrbitFilter(all, category, searchText);
    if category != AllCategories {
      FilterKeepsAll(r, a => InCategory(a, category));
    }
    if searchText != "" {
      FilterKeepsAll(r, a => NameMatches(a, searchText));
    }
  }

  /** `data || []`: a missing fetch result counts as the empty list. */
  function OrDefault(data: Option<seq<Athlete>>): seq<Athlete> {
    if data.Some? then data.value else []
  }

  /** The full and the shown list of the "my orbit" screen. */
  datatype OrbitLists = OrbitLists(all: seq<Athlete>, shown: seq<Athlete>)

  /** `loadData`: both lists become the fetched list, or empty when nothing came back. */
  function LoadOrbit(data: Option<seq<Athlete>>): (r: OrbitLists)
    ensures data.None? ==> r.all == [] && r.shown == []
    ensures data.Some? ==> r.all == data.value && r.shown == data.value
  {
    OrbitLists(OrDefault(data), OrDefault(data))
  }

  /** With the initial settings ('all', no text) the filter effect re-shows what loading set. */
  lemma LoadThenFilterShowsAll(data: Option<seq<Athlete>>)
    ensures var l := LoadOrbit(data); OrbitFilter(l.all, AllCategories, "") == l.shown
  {
  }

  // ---------------------------------------------------------------------------
  // Search screen
  // ---------------------------------------------------------------------------

  /** The filter effect of the search screen: by name only. */
  function SearchFilter(all: seq<Athlete>, searchText: string): (r: seq<Athlete>)
    ensures searchText == "" ==> r == all
    ensures IsSubsequence(r, all)
    ensures forall i :: 0 <= i < |r| ==> searchText != "" ==> NameMatches(r[i], searchText)
    ensures forall i :: 0 <= i < |all| && NameMatches(all[i], searchText) ==> all[i] in r
    ensures forall a :: multiset(r)[a] == if searchText == "" || NameMatches(a, searchText) then multiset(all)[a] else 0
  {
    if searchText != "" then
      var matches := a => NameMatches(a, searchText);
      FilterIsSubsequence(all, matches);
      FilterCounts(all, matches);
      Filter(all, matches)
    else
      SubsequenceReflexive(all);
      all
  }

  /** The search screen's filter is the "my orbit" filter with the category set to 'all'. */
  lemma SearchIsOrbitWithAllCategories(all: seq<Athlete>, searchText: string)
    ensures SearchFilter(all, searchText) == OrbitFilter(all, AllCategories, searchText)
  {
  }

  /** `new Set(followedData.map(a => a.id))`. */
  function FollowedIdSet(followed: seq<Athlete>): (ids: set<AthleteId>)
    ensures forall id :: id in ids <==> exists i :: 0 <= i < |followed| && followed[i].id == id
  {
    set i | 0 <= i < |followed| :: followed[i].id
  }
}

# Orbit app: result formatting, athlete filters and the follow toggle

Orbit is a mobile client for following athletes. This project models the few pieces of its
screens that hold logic, and proves their properties:

- **The result formatter** (athlete detail screen, repeated on the home feed screen). It turns a
  semi-structured result record (field name → raw value) into ordered (label, value) rows:
  - a label comes from a fixed synonym table, or else the key is title-cased;
  - a value is "-" when falsy, an English ordinal for placing keys, and the plain string otherwise;
  - rows are sorted by keyword priority (1–4) and then by key;
  - the reserved `hidden_id` entry is never rendered.
- **The athlete list filters** of the "my orbit" screen (category, then name) and of the search
  screen (name only), plus the `data || []` defaulting of a fetch.
- **The follow state** of the search screen. It is a class holding the set of followed ids and a
  toggle that updates the set optimistically and restores the old set when the backend reports
  failure.

Modules, one per concern:

| file | module | models |
|---|---|---|
| JsText.dfy | `JsText` | the JavaScript built-ins the screens use: truthiness, `String()`, ASCII `toLowerCase`/`toUpperCase`, `includes`, `parseInt` on digit strings, the truncating `%`, array reads that give `undefined`, `\|\|`, the two regex replaces of the label fallback, and `localeCompare` as a lexicographic order |
| JsArray.dfy | `JsArray` | `Array.prototype.filter`, and `Array.prototype.sort` as a stable insertion sort |
| ResultFormat.dfy | `ResultFormat` | the athlete detail screen's helpers and its stats rows |
| HomeFeed.dfy | `HomeFeed` | the home screen's own copy of the helpers, its feed-card rows, and proofs that the copy agrees with the detail screen's |
| AthleteFilters.dfy | `AthleteFilters` | the list filters of the "my orbit" and search screens, and the followed-id set |
| SearchFollow.dfy | `SearchFollow` | the search screen's follow state as a class, with the toggle |

Notes on how the model reads the code:

- `getOrdinal` is modelled as written: `s[(v - 20) % 10] || s[v] || s[0]`. The model uses
  JavaScript's truncating remainder (`JsText.TruncRem`), `undefined` for reads outside the array
  (`JsText.At`) and JavaScript's `||` (`JsText.Or`). `ResultFormat.Ordinal` proves that this
  expression yields the usual English rule for every natural number. Dafny's own `%` is
  Euclidean: read with it, `(11 - 20) % 10` would be 1 and 11 would print as "11st".
- `formatValue` returns "-" for every falsy value (`undefined`, `null`, `""`, `0`). The converse
  does not hold: a truthy string value "-" is also shown as "-", under any key.
  `ResultFormat.DashMeansFalsy` states the converse that does hold.
- The label fallback follows the code's regular expression `\b\w`. After underscores become
  spaces, it upper-cases every ASCII letter or digit that has no letter or digit just before
  it. So "split-time" becomes "Split-Time", not just the first letter after each space.
- The code sorts first and skips `hidden_id` while rendering; it does not remove the entry
  before sorting. Both orders give the same rows, because the skip keeps the order of the rest.
- The result record is the list `Object.entries` returns. Its keys are distinct, because they
  are the keys of an object. The formatter itself does not require distinct keys. The
  order-related lemmas assume them (`DistinctKeys`). Under that assumption,
  `ResultFormat.SortedEntriesUnique` proves that every correct sort under the comparator returns
  the same array. So modelling the engine's sort as an insertion sort loses nothing, and the
  order in which `Object.entries` lists the keys does not matter
  (`ResultFormat.SortedEntriesOrderIndependent`).
- The two screens' helper copies compute the same functions. Only the placeholder line differs:
  "No detailed results available." on the detail screen, "Detailed results pending..." on the
  feed.

## Model

| member | source | states |
|---|---|---|
| `JsText.TruncRem` | screens/AthleteDetailScreen.js:64-65 | `%` as the screens' language computes it: the remainder takes the sign of the dividend, is smaller than the divisor in size, and completes the truncated quotient |
| `JsText.Lower` | screens/AthleteDetailScreen.js:71 | `toLowerCase` keeps the length and lower-cases each ASCII letter |
| `JsText.LocaleCompare` | screens/AthleteDetailScreen.js:88 | the tie-break comparison is zero exactly for equal keys and negative exactly when the first key sorts before the second |
| `JsText.StrLessTotal` | screens/AthleteDetailScreen.js:88 | two different keys are ordered one way and not the other, and no key is before itself |
| `JsText.StrLessTransitive` | screens/AthleteDetailScreen.js:88 | the key order is transitive |
| `JsText.DecimalRoundTrip` | screens/AthleteDetailScreen.js:55 | printing a number and parsing its digits back gives the number; the printed form is non-empty digits with no leading zero |
| `JsText.KeepDigitsOfDigits` | screens/AthleteDetailScreen.js:55 | stripping non-digits from a digit string leaves it unchanged |
| `JsText.KeepDigitsEmpty` | screens/AthleteDetailScreen.js:55-56 | stripping non-digits leaves nothing (so `parseInt` gives NaN) exactly when the value has no digit |
| `JsText.UpperWordStartsAt` | screens/AthleteDetailScreen.js:45 | the `\b\w` replace upper-cases exactly the word characters that start a word and leaves every other character alone |
| `JsText.At` | screens/AthleteDetailScreen.js:65 | an array read is defined exactly inside the bounds, where it is the element |
| `JsText.Or` | screens/AthleteDetailScreen.js:65 | `x \|\| y` is `x` when `x` is a non-empty string and `y` otherwise |
| `JsText.NumberPlus` | screens/AthleteDetailScreen.js:65 | `n + x` is the decimal digits of n followed by x when x is a string, and `NaN` when x is `undefined` |
| `JsText.Truthy` | screens/AthleteDetailScreen.js:50 | `!value`: falsy exactly for `undefined`, `null`, `""` and `0` (a predicate; the "-" case of `ResultFormat.FormatValue` rests on it) |
| `JsText.Stringify` | screens/AthleteDetailScreen.js:59 | `String(v)`: "undefined", "null", the string itself, or the integer's decimal digits after a "-" when negative; `JsText.DecimalRoundTrip` states the digits read back |
| `JsText.Contains` | screens/AthleteDetailScreen.js:54 | `includes`: the substring occurs at some position (a predicate used by the placing test and the name filters) |
| `JsText.UnderscoresToSpaces` | screens/AthleteDetailScreen.js:45 | `replace(/_/g, ' ')` keeps the length, turns each underscore into a space and keeps every other character |
| `JsText.UpperWordStarts` | screens/AthleteDetailScreen.js:45 | `replace(/\b\w/g, …)` keeps the length; what it does at each position is stated by `JsText.UpperWordStartsAt` |
| `JsText.KeepDigits` | screens/AthleteDetailScreen.js:55 | `replace(/[^0-9]/g, '')` gives only digits and is no longer than its input; that it keeps exactly the digits, in order, is `ResultFormat.KeepDigitsIsFilter` |
| `JsText.ParseDigits` | screens/AthleteDetailScreen.js:55 | `parseInt(digits, 10)` on a digit string; `JsText.DecimalRoundTrip` states that it undoes `String(n)` |
| `JsArray.Filter` | screens/MyOrbitScreen.js:42-51 | `filter` keeps only elements satisfying the predicate, adds nothing, and keeps every element that satisfies it |
| `JsArray.FilterCounts` | screens/MyOrbitScreen.js:42-51 | `filter` keeps each passing element exactly as often as the input has it, and no failing element |
| `JsArray.FilterCongruent` | screens/MyOrbitScreen.js:42-51 | predicates that agree on every element filter every list identically |
| `JsArray.FilterFusion` | screens/MyOrbitScreen.js:38-52 | two filters in a row are one filter by both predicates |
| `JsArray.FilterIsSubsequence` | screens/MyOrbitScreen.js:42-51 | a filtered list is a subsequence of its input, so relative order is kept |
| `JsArray.FilterKeepsAll` | screens/MyOrbitScreen.js:42-51 | filtering a list whose every element passes returns it unchanged |
| `JsArray.SubsequenceTransitive` | screens/MyOrbitScreen.js:38-52 | two filters in a row still give a subsequence of the original list |
| `JsArray.SortBy` | screens/AthleteDetailScreen.js:80-89 | `sort` returns a permutation of its input |
| `JsArray.SortBySorted` | screens/AthleteDetailScreen.js:80-89 | with a comparator whose sign flips when its arguments are swapped, every neighbour pair of the result is in comparator order |
| `JsArray.SortByCongruent` | screens/HomeScreen.js:75-80 | comparators that agree on every pair sort every array identically |
| `ResultFormat.FormatKey` | screens/AthleteDetailScreen.js:42-46 | a key in the synonym table gets its table label; any other key gets a label of the same length, without underscores, whose every character is the key's with underscores turned into spaces and word-initial letters or digits upper-cased |
| `ResultFormat.FallbackLabelAt` | screens/AthleteDetailScreen.js:45 | the two chained replaces of the fallback give that character-by-character label |
| `ResultFormat.FallbackLabelExample` | screens/AthleteDetailScreen.js:45 | "custom_note" is labelled "Custom Note" |
| `ResultFormat.Ordinal` | screens/AthleteDetailScreen.js:62-66 | `getOrdinal(n)` is the decimal digits of n followed by "th" for 11-13 modulo 100, else "st", "nd", "rd" for last digit 1, 2, 3, else "th" |
| `ResultFormat.SuffixExpressionIsOrdinalSuffix` | screens/AthleteDetailScreen.js:63-65 | the suffix expression, under truncating `%` and `undefined` reads, equals the English suffix rule for every natural number |
| `ResultFormat.LastDigitOfTwo` | screens/AthleteDetailScreen.js:64 | the last digit of `n % 100` is the last digit of n |
| `ResultFormat.OrdinalEndsInTh` | screens/AthleteDetailScreen.js:62-66 | an ordinal ends in "th" exactly when n is 11-13 modulo 100 or its last digit is 0 or 4-9 |
| `ResultFormat.OrdinalExamples` | screens/AthleteDetailScreen.js:62-66 | 1 → "1st", 11 → "11th", 22 → "22nd" |
| `ResultFormat.ParseIntDigits` | screens/AthleteDetailScreen.js:55-56 | `parseInt` on the stripped digits is NaN exactly when no digit was left |
| `ResultFormat.KeepDigitsIsFilter` | screens/AthleteDetailScreen.js:55 | stripping the non-digits is filtering by "is a digit": the result is an ordered subsequence of the value that has every digit as often as the value has it, and nothing else |
| `ResultFormat.FormatValue` | screens/AthleteDetailScreen.js:49-60 | a falsy value gives "-"; a truthy value under a key containing "rank" or "place" (ignoring case) that has a digit gives the ordinal of the number formed by all its digits; any other truthy value gives its string form |
| `ResultFormat.NumericPlacing` | screens/AthleteDetailScreen.js:54-56 | a non-zero number under a placing key shows as the ordinal of its absolute value |
| `ResultFormat.DashMeansFalsy` | screens/AthleteDetailScreen.js:50-59 | "-" is shown only for a falsy value or for a value whose string form is itself "-" |
| `ResultFormat.PlacingWithoutDigitExample` | screens/AthleteDetailScreen.js:54-59 | a placing of "DNF" falls back to "DNF" |
| `ResultFormat.PlacingWithPunctuationExample` | screens/AthleteDetailScreen.js:48-56 | a placing of "3." shows as "3rd" |
| `ResultFormat.EmptyValueExample` | screens/AthleteDetailScreen.js:50 | an empty string shows as "-" |
| `ResultFormat.SortPriority` | screens/AthleteDetailScreen.js:70-76 | the priority is always between 1 and 4 |
| `ResultFormat.SortPriorityByRules` | screens/AthleteDetailScreen.js:70-76 | the priority is the first matching rule of the table place/rank/pos → 1, mark/result/time → 2, discipline/event → 3, else 4, matched on the lower-cased key |
| `ResultFormat.SortPriorityIgnoresCase` | screens/AthleteDetailScreen.js:71 | keys that lower-case alike get the same priority |
| `ResultFormat.FirstGroupWinsExample` | screens/AthleteDetailScreen.js:72 | "place_time" and "Place_Time" get priority 1, not 2 |
| `ResultFormat.CompareEntries` | screens/AthleteDetailScreen.js:80-89 | the comparator is negative exactly when the first entry has a lower priority, or the same priority and a lexicographically smaller key, and zero exactly for equal keys |
| `ResultFormat.CompareEntriesAntisymmetric` | screens/AthleteDetailScreen.js:80-89 | swapping the comparator's arguments flips the sign of its result |
| `ResultFormat.CompareEntriesInOrder` | screens/AthleteDetailScreen.js:80-89 | the comparator says "not after" exactly when the priority is lower, or equal with a key not after the other |
| `ResultFormat.SortedEntries` | screens/AthleteDetailScreen.js:78-90 | an absent record gives no entries; a present one gives a permutation of its entries with every neighbour pair in (priority, key) order |
| `ResultFormat.SortedEntriesStrict` | screens/AthleteDetailScreen.js:78-90 | with distinct keys, priorities never decrease and keys strictly increase within one priority |
| `ResultFormat.KeysDiffer` | screens/AthleteDetailScreen.js:80 | two different entries of an object have different keys |
| `ResultFormat.DistinctKeysOnce` | screens/AthleteDetailScreen.js:80 | an entry occurs at most once among an object's entries |
| `ResultFormat.DistinctKeysPermutation` | screens/AthleteDetailScreen.js:80 | rearranging an object's entries keeps the keys distinct |
| `ResultFormat.StrictlyBeforeTransitive` | screens/AthleteDetailScreen.js:84-88 | the (priority, key) order is transitive |
| `ResultFormat.StrictlyBeforeAsymmetric` | screens/AthleteDetailScreen.js:84-88 | no two entries are each strictly before the other |
| `ResultFormat.StrictlyOrderedPairwise` | screens/AthleteDetailScreen.js:80-89 | strictly ordered neighbours make every earlier entry strictly before every later one |
| `ResultFormat.HeadIsLeast` | screens/AthleteDetailScreen.js:80-89 | the first sorted entry is before every other entry |
| `ResultFormat.StrictlyOrderedUnique` | screens/AthleteDetailScreen.js:80-89 | two strictly ordered arrangements of the same entries are equal |
| `ResultFormat.SortedEntriesUnique` | screens/AthleteDetailScreen.js:80-89 | any arrangement of a record's entries in strict (priority, key) order is the sorted entries, so every correct sort agrees with the model |
| `ResultFormat.SortedEntriesOrderIndependent` | screens/AthleteDetailScreen.js:80 | the sorted entries do not depend on the order `Object.entries` lists them in |
| `ResultFormat.RenderEntry` | screens/AthleteDetailScreen.js:126-134 | the row-map callback: nothing for `hidden_id`, otherwise the entry's row (its rows are stated by `ResultFormat.RenderEntriesRows`) |
| `ResultFormat.RenderEntries` | screens/AthleteDetailScreen.js:126-135 | the mapped list with the `null` children dropped; stated by `ResultFormat.RenderEntriesRows` and `ResultFormat.RenderEntriesHideId` |
| `ResultFormat.DetailStats` | screens/AthleteDetailScreen.js:125-138 | the stats area of an event card; stated by `ResultFormat.DetailStatsRows` and `ResultFormat.StatsRowCount` |
| `ResultFormat.RenderEntriesRows` | screens/AthleteDetailScreen.js:126-135 | the row map gives one row per entry other than `hidden_id`, in order, each row the entry's key, label and formatted value |
| `ResultFormat.RenderEntriesHideId` | screens/AthleteDetailScreen.js:127 | no row is rendered for `hidden_id` |
| `ResultFormat.ShownCount` | screens/AthleteDetailScreen.js:126-127 | with distinct keys, skipping `hidden_id` drops exactly one entry when it is present and none otherwise |
| `ResultFormat.DetailStatsRows` | screens/AthleteDetailScreen.js:125-138 | a primitive or missing result shows only the placeholder; an object shows exactly its sorted entries minus `hidden_id`, as rows, in that order |
| `ResultFormat.StatsRowCount` | screens/AthleteDetailScreen.js:125-135 | an object with distinct keys renders one row per key, less one if `hidden_id` is a key |
| `HomeFeed.OrdinalAgrees` | screens/HomeScreen.js:59-63 | the feed's `getOrdinal` equals the detail screen's and follows the English rule |
| `HomeFeed.FormatKeyAgrees` | screens/HomeScreen.js:45-48 | the feed's `formatKey` and its table equal the detail screen's on every key |
| `HomeFeed.FormatValueAgrees` | screens/HomeScreen.js:50-57 | the feed's `formatValue` equals the detail screen's on every key and value |
| `HomeFeed.SortPriorityAgrees` | screens/HomeScreen.js:65-71 | the feed's `getSortPriority` equals the detail screen's, so it also lies in 1..4 with the same first-match precedence |
| `HomeFeed.SortedEntriesAgree` | screens/HomeScreen.js:73-81 | the feed sorts every record exactly as the detail screen does |
| `HomeFeed.FeedEntriesStrictlySorted` | screens/HomeScreen.js:73-81 | the feed's sorted entries are a permutation whose priorities never decrease and whose keys strictly increase within one priority |
| `HomeFeed.RenderEntriesAgree` | screens/HomeScreen.js:110-118 | the feed's row map gives the same rows as the detail screen's |
| `HomeFeed.FeedStatsMatchesDetail` | screens/HomeScreen.js:109-121 | an object result shows the same rows as on the detail screen; a missing or primitive result shows only "Detailed results pending..." |
| `HomeFeed.FeedRowCount` | screens/HomeScreen.js:110-111 | a feed card shows one row per result key, less one if `hidden_id` is a key, and none for `hidden_id` |
| `HomeFeed.FormatKey` | screens/HomeScreen.js:45-48 | the feed's `formatKey`, written out again; equal to the detail screen's by `HomeFeed.FormatKeyAgrees` |
| `HomeFeed.FormatValue` | screens/HomeScreen.js:50-57 | the feed's `formatValue`; equal to the detail screen's by `HomeFeed.FormatValueAgrees` |
| `HomeFeed.Ordinal` | screens/HomeScreen.js:59-63 | the feed's `getOrdinal`, the literal suffix expression; the English rule by `HomeFeed.OrdinalAgrees` |
| `HomeFeed.SortPriority` | screens/HomeScreen.js:65-71 | the feed's `getSortPriority`; equal to the detail screen's by `HomeFeed.SortPriorityAgrees` |
| `HomeFeed.CompareEntries` | screens/HomeScreen.js:75-80 | the feed's comparator; it sorts like the detail screen's by `HomeFeed.SortedEntriesAgree` |
| `HomeFeed.SortedEntries` | screens/HomeScreen.js:73-81 | the feed's `getSortedEntries`; equal to the detail screen's by `HomeFeed.SortedEntriesAgree` |
| `HomeFeed.RenderEntry` | screens/HomeScreen.js:110-117 | the feed's row-map callback, skipping `hidden_id` |
| `HomeFeed.RenderEntries` | screens/HomeScreen.js:110-118 | the feed's row list; equal to the detail screen's by `HomeFeed.RenderEntriesAgree` |
| `HomeFeed.FeedStats` | screens/HomeScreen.js:109-121 | the feed card's stats area; stated by `HomeFeed.FeedStatsMatchesDetail` and `HomeFeed.FeedRowCount` |
| `AthleteFilters.OrbitFilter` | screens/MyOrbitScreen.js:37-55 | the shown list is a subsequence of all athletes; each shown athlete matches the category (unless 'all') and the search text (unless empty); every athlete that matches both is shown, as often as it occurs in the full list; 'all' with no text shows everyone |
| `AthleteFilters.InCategory` | screens/MyOrbitScreen.js:43 | the category test: a category that lower-cases like the selected one; a missing category never matches |
| `AthleteFilters.NameMatches` | screens/MyOrbitScreen.js:50 | the name test: the lower-cased name contains the lower-cased search text |
| `AthleteFilters.PassesOrbitFilters` | screens/MyOrbitScreen.js:41-51 | an athlete passes each test that is switched on: the category unless it is 'all', the name unless the text is empty |
| `AthleteFilters.StagesAreOneFilter` | screens/MyOrbitScreen.js:38-52 | the category stage followed by the name stage equals one filter by both tests |
| `AthleteFilters.OrbitFilterIsFilter` | screens/MyOrbitScreen.js:37-55 | the shown list is exactly the full list filtered by both tests |
| `AthleteFilters.OrbitFilterIdempotent` | screens/MyOrbitScreen.js:37-55 | filtering the shown list again with the same settings changes nothing |
| `AthleteFilters.LoadOrbit` | screens/MyOrbitScreen.js:60-62 | after loading, both lists are the fetched list, or empty when nothing came back |
| `AthleteFilters.OrDefault` | screens/MyOrbitScreen.js:61 | `data \|\| []`: the fetched list, or the empty list when nothing came back |
| `AthleteFilters.LoadThenFilterShowsAll` | screens/MyOrbitScreen.js:30-62 | with the initial settings the filter effect shows what loading set |
| `AthleteFilters.SearchFilter` | screens/SearchScreen.js:24-33 | empty text shows all athletes; otherwise exactly those whose lower-cased name contains the lower-cased text, each as often as in the full list, in their original order |
| `AthleteFilters.SearchIsOrbitWithAllCategories` | screens/SearchScreen.js:26-32 | the search screen's filter is the "my orbit" filter with category 'all' |
| `AthleteFilters.FollowedIdSet` | screens/SearchScreen.js:53 | the followed-id set holds exactly the ids of the followed athletes returned |
| `SearchFollow.Flip` | screens/SearchScreen.js:69-74 | the copied set has the membership of the toggled id reversed and every other id unchanged |
| `SearchFollow.FlipTwice` | screens/SearchScreen.js:69-75 | flipping the same id twice gives back the original set |
| `SearchFollow.SearchState.constructor` | screens/SearchScreen.js:14-18 | the screen starts with no user, no athletes and an empty followed set |
| `SearchFollow.SearchState.Load` | screens/SearchScreen.js:35-54 | without a user nothing changes; with one, the user, the fetched athletes (or none) and exactly the followed ids are recorded |
| `SearchFollow.SearchState.ApplyOptimistic` | screens/SearchScreen.js:66-75 | the optimistic update reports the old membership and flips the id's membership, leaving every other id |
| `SearchFollow.SearchState.ToggleFollow` | screens/SearchScreen.js:63-85 | without a user nothing changes and no call is made; otherwise the backend call carries the membership before the toggle, and the set ends flipped on success and equal to its old value on failure |
| `SearchFollow.ToggleTwice` | screens/SearchScreen.js:69-75 | two successful toggles of the same athlete restore the followed set |

## Left out

- The backend layer (services/api.js) is not part of this model. Its authentication, selects, inserts and deletes are not modelled. Fetched lists are parameters, and the outcome of `toggleFollow` is a `bool` parameter of `SearchFollow.SearchState.ToggleFollow`.
- App.js and screens/LoginScreen.js are not part of this model: they hold navigation, the session listener and the sign-in forms.
- React scheduling is not modelled: effects, focus effects, state setters, rendering, styles, `Alert` and loading spinners. The filter effects are functions of their inputs.
- Asynchrony is not modelled: `await`, `Promise.all`, and overlapping toggles that revert to an outdated copy of the followed set. The toggle is one sequential step, with the backend's answer as a parameter.
- Date formatting with `toLocaleDateString` is not modelled. The unused `SORT_ORDER` constant of the home screen is not modelled.
- Values in a result record are `undefined`, `null`, strings or integers. Fractional numbers, `NaN`, booleans and nested objects are not modelled, nor is their truthiness.
- `JsText.ParseDigits`: reads digit strings of any length exactly; the engine's `parseInt` rounds numbers above 2^53 to the nearest double, so a very long run of digits gives a rounded placing.
- `JsText.Stringify`: prints every integer in full decimal form; the engine prints numbers of 10^21 and more in exponent form (`1e+21`), so in the app a placing `Number(10^21)` reads its digits as 121 and shows "121st", where the model shows "1000000000000000000000th".
- `JsText.Lower`: lower-cases ASCII letters only; the engine's `toLowerCase` also maps other Unicode letters.
- `JsText.LocaleCompare`: orders keys lexicographically by code unit, not by the locale's collation.
- `ResultFormat.FormatKey`: a key that names an inherited property of a plain object, such as "constructor", is treated as a key outside the table.
- `AthleteFilters.NameMatches` is applied to every athlete. The engine throws when a name is `null`; the model does not cover that case.
- `SearchFollow.SearchState.ToggleFollow`: only a missing user skips the toggle; a present but falsy user id (such as "") is not distinguished.
- `SearchFollow.SearchState`: the search screen's shown list is not kept as a field; it is `AthleteFilters.SearchFilter` of the loaded athletes and the search text.

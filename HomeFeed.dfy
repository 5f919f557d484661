/**
 * The home feed's copy of the result formatter and its feed-card stats area. The helpers
 * are written out again, as the feed screen has its own copies; the lemmas show that each
 * copy computes what the athlete detail screen's does, so every property proved in
 * `ResultFormat` carries over to the feed card.
 */
module HomeFeed {
  import opened JsText
  import opened JsArray
  import ResultFormat

  type Entry = ResultFormat.Entry
  type Payload = ResultFormat.Payload
  type Row = ResultFormat.Row
  type Stats = ResultFormat.Stats

  const DisplayNames: map<string, string> := map[
    "place_rank" := "Place", "rank" := "Place", "pos" := "Place",
    "mark" := "Mark", "discipline_clean" := "Event",
    "event" := "Event", "wind" := "Wind", "venue" := "Location", "date" := "Date"
  ]

  const Suffixes: seq<string> := ["th", "st", "nd", "rd"]

  function FormatKey(key: string): string {
    if key in DisplayNames then DisplayNames[key]
    else UpperWordStarts(UnderscoresToSpaces(key), false)
  }

  function Ordinal(n: nat): string {
    var v := TruncRem(n, 100);
    NumberPlus(n, Or(Or(At(Suffixes, TruncRem(v - 20, 10)), At(Suffixes, v)), At(Suffixes, 0)))
  }

  function FormatValue(key: string, value: Value): string {
    if !Truthy(value) then "-"
    else if Contains(Lower(key), "rank") || Contains(Lower(key), "place") then
      var digits := KeepDigits(Stringify(value));
      if digits != [] then Ordinal(ParseDigits(digits)) else Stringify(value)
    else Stringify(value)
  }

  function SortPriority(key: string): int {
    var k := Lower(key);
    if Contains(k, "place") || Contains(k, "rank") || Contains(k, "pos") then 1
    else if Contains(k, "mark") || Contains(k, "result") || Contains(k, "time") then 2
    else if Contains(k, "discipline") || Contains(k, "event") then 3
    else 4
  }

  function CompareEntries(a: Entry, b: Entry): int {
    var pa := SortPriority(a.key);
    var pb := SortPriority(b.key);
    if pa != pb then pa - pb else LocaleCompare(a.key, b.key)
  }

  function SortedEntries(record: Option<seq<Entry>>): seq<Entry> {
    if record.None? then [] else SortBy(record.value, CompareEntries)
  }

  /** The feed card's row-map callback: `null` for `hidden_id`. */
  function RenderEntry(e: Entry): Option<Row> {
    if !ResultFormat.Shown(e) then None
    else Some(ResultFormat.Row(e.key, FormatKey(e.key), FormatValue(e.key, e.value)))
  }

  function RenderEntries(es: seq<Entry>): seq<Row>
    decreases |es|
  {
    if es == [] then []
    else
      var rest := RenderEntries(es[1..]);
      match RenderEntry(es[0])
      case None => rest
      case Some(row) => [row] + rest
  }

  /** The stats area of a feed card. */
  function FeedStats(result: Payload): Stats {
    if result.Object? then ResultFormat.Rows(RenderEntries(SortedEntries(Some(result.entries))))
    else ResultFormat.Placeholder("Detailed results pending...")
  }

  // ---------------------------------------------------------------------------
  // The two copies agree
  // ---------------------------------------------------------------------------

  /** The feed's `getOrdinal` is the detail screen's: digits and English suffix. */
  lemma OrdinalAgrees(n: nat)
    ensures Ordinal(n) == ResultFormat.Ordinal(n)
    ensures Ordinal(n) == Decimal(n) + ResultFormat.OrdinalSuffix(n)
  {
    assert Suffixes == ResultFormat.Suffixes;
  }

  lemma FormatKeyAgrees(key: string)
    ensures FormatKey(key) == ResultFormat.FormatKey(key)
  {
    assert DisplayNames == ResultFormat.DisplayNames;
  }

  lemma FormatValueAgrees(key: string, value: Value)
    ensures FormatValue(key, value) == ResultFormat.FormatValue(key, value)
  {
    if Truthy(value) {
      var text := Stringify(value);
      var digits := KeepDigits(text);
      if digits != [] {
        OrdinalAgrees(ParseDigits(digits));
      }
    }
  }

  lemma SortPriorityAgrees(key: string)
    ensures SortPriority(key) == ResultFormat.SortPriority(key)
  {
  }

  /** The feed sorts every record exactly as the detail screen does. */
  lemma SortedEntriesAgree(record: Option<seq<Entry>>)
    ensures SortedEntries(record) == ResultFormat.SortedEntries(record)
  {
    if record.Some? {
      SortByCongruent(record.value, CompareEntries, ResultFormat.CompareEntries);
    }
  }

  lemma {:induction false} RenderEntriesAgree(es: seq<Entry>)
    ensures RenderEntries(es) == ResultFormat.RenderEntries(es)
    decreases |es|
  {
    if es != [] {
      RenderEntriesAgree(es[1..]);
      FormatKeyAgrees(es[0].key);
      FormatValueAgrees(es[0].key, es[0].value);
    }
  }

  // ---------------------------------------------------------------------------
  // The feed card
  // ---------------------------------------------------------------------------

  /** A feed card shows the same rows as the detail screen's card for an object result, and
      only its own placeholder line otherwise. */
  lemma FeedStatsMatchesDetail(result: Payload)
    ensures result.Object? ==> FeedStats(result) == ResultFormat.DetailStats(result)
    ensures result.Primitive? ==> FeedStats(result) == ResultFormat.Placeholder("Detailed results pending...")
  {
    if result.Object? {
      SortedEntriesAgree(Some(result.entries));
      RenderEntriesAgree(SortedEntries(Some(result.entries)));
    }
  }

  /** With distinct keys, the feed's sorted entries never go down in priority and strictly
      increase in key within one priority. */
  lemma FeedEntriesStrictlySorted(es: seq<Entry>)
    requires ResultFormat.DistinctKeys(es)
    ensures var r := SortedEntries(Some(es));
            multiset(r) == multiset(es) &&
            forall i :: 0 <= i < |r| - 1 ==> ResultFormat.StrictlyBefore(r[i], r[i + 1])
  {
    SortedEntriesAgree(Some(es));
    ResultFormat.SortedEntriesStrict(es);
  }

  /** A feed card renders one row per result key, less one when `hidden_id` is a key, and no
      row for `hidden_id`. */
  lemma FeedRowCount(es: seq<Entry>)
    requires ResultFormat.DistinctKeys(es)
    ensures var s := FeedStats(ResultFormat.Object(es));
            s.Rows? &&
            |s.rows| == |es| - (if ResultFormat.HasKey(es, "hidden_id") then 1 else 0) &&
            forall i :: 0 <= i < |s.rows| ==> s.rows[i].key != "hidden_id"
  {
    FeedStatsMatchesDetail(ResultFormat.Object(es));
    ResultFormat.StatsRowCount(es);
    ResultFormat.RenderEntriesHideId(ResultFormat.SortedEntries(Some(es)));
  }
}

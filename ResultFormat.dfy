/**
 * The result formatter of the athlete detail screen: it turns a result record (the
 * `Object.entries` of a semi-structured result object) into an ordered list of
 * (label, formatted value) rows, ordered by keyword priority and then by key, with the
 * reserved `hidden_id` entry left out.
 */
module ResultFormat {
  import opened JsText
  import opened JsArray

  /** One `[key, value]` pair of `Object.entries(result)`. */
  datatype Entry = Entry(key: string, value: Value)

  /** One rendered stat row; `key` is the React key of the row. */
  datatype Row = Row(key: string, name: string, value: string)

  /** What a card's `result` field holds: a primitive (possibly `null` or absent) or an object. */
  datatype Payload = Primitive(v: Value) | Object(entries: seq<Entry>)

  /** The stats area of a card: the rows, or the placeholder line. */
  datatype Stats = Rows(rows: seq<Row>) | Placeholder(text: string)

  const HiddenKey := "hidden_id"

  // ---------------------------------------------------------------------------
  // Labels
  // ---------------------------------------------------------------------------

  /** The fixed synonym table of labels. */
  const DisplayNames: map<string, string> := map[
    "place_rank" := "Place",
    "rank" := "Place",
    "pos" := "Place",
    "mark" := "Mark",
    "discipline_clean" := "Event",
    "event" := "Event",
    "wind" := "Wind",
    "venue" := "Location",
    "date" := "Date"
  ]

  /** A letter or digit: `\w` once underscores have become spaces. */
  predicate IsAlnum(c: char) { IsWordChar(c) && c != '_' }

  /** The fallback label's character at `i`: an underscore becomes a space, and a letter or
      digit that starts a word (no letter or digit just before it) is upper-cased. */
  function FallbackCharAt(key: string, i: nat): char
    requires i < |key|
  {
    if key[i] == '_' then ' '
    else if IsAlnum(key[i]) && (i == 0 || !IsAlnum(key[i - 1])) then UpperChar(key[i])
    else key[i]
  }

  /** `formatKey`: the table label when the key is in the table, the title-cased key otherwise. */
  function FormatKey(key: string): (r: string)
    ensures key in DisplayNames ==> r == DisplayNames[key]
    ensures key !in DisplayNames ==> |r| == |key| && '_' !in r
    ensures key !in DisplayNames ==> forall i :: 0 <= i < |key| ==> r[i] == FallbackCharAt(key, i)
  {
    if key in DisplayNames then DisplayNames[key]
    else
      FallbackLabelAt(key);
      UpperWordStarts(UnderscoresToSpaces(key), false)
  }

  lemma FallbackLabelAt(key: string)
    ensures var r := UpperWordStarts(UnderscoresToSpaces(key), false);
            |r| == |key| && '_' !in r &&
            forall i :: 0 <= i < |key| ==> r[i] == FallbackCharAt(key, i)
  {
    var spaced := UnderscoresToSpaces(key);
    var r := UpperWordStarts(spaced, false);
    forall i | 0 <= i < |key| ensures r[i] == FallbackCharAt(key, i) {
      UpperWordStartsAt(spaced, i);
    }
  }

  // ---------------------------------------------------------------------------
  // Ordinals
  // ---------------------------------------------------------------------------

  /** The English ordinal suffix: "th" for 11-13 modulo 100, otherwise by the last digit. */
  function OrdinalSuffix(n: nat): string {
    if 11 <= n % 100 <= 13 then "th"
    else if n % 10 == 1 then "st"
    else if n % 10 == 2 then "nd"
    else if n % 10 == 3 then "rd"
    else "th"
  }

  const Suffixes: seq<string> := ["th", "st", "nd", "rd"]

  /** The suffix expression `s[(v - 20) % 10] || s[v] || s[0]` with `v = n % 100`, under
      JavaScript's truncating `%` and out-of-range reads giving `undefined`. */
  function SuffixExpression(n: nat): Option<string> {
    var v := TruncRem(n, 100);
    Or(Or(At(Suffixes, TruncRem(v - 20, 10)), At(Suffixes, v)), At(Suffixes, 0))
  }

  /** `getOrdinal`: the decimal digits of `n` followed by its English ordinal suffix. */
  function Ordinal(n: nat): (r: string)
    ensures r == Decimal(n) + OrdinalSuffix(n)
  {
    SuffixExpressionIsOrdinalSuffix(n);
    NumberPlus(n, SuffixExpression(n))
  }

  lemma LastDigitOfTwo(n: nat)
    ensures (n % 100) % 10 == n % 10
  {
    var m := n % 100;
    var q, d, e := n / 100, m / 10, m % 10;
    assert n == 100 * q + m && m == 10 * d + e;
    RemTenOf(n, 10 * q + d, e);
  }

  /** The remainder by 10 is fixed by any decomposition with a last digit in range. */
  lemma RemTenOf(n: int, a: int, b: int)
    requires n == 10 * a + b && 0 <= b < 10
    ensures n % 10 == b
  {
  }

  /** The suffix expression computes the English rule on every natural number. */
  lemma SuffixExpressionIsOrdinalSuffix(n: nat)
    ensures SuffixExpression(n) == Some(OrdinalSuffix(n))
  {
    var v := n % 100;
    LastDigitOfTwo(n);
    if v >= 20 {
      assert TruncRem(v - 20, 10) == v % 10;
    }
  }

  /** An ordinal ends in "th" exactly when n is 11-13 modulo 100 or its last digit is 0 or 4-9. */
  lemma OrdinalEndsInTh(n: nat)
    ensures var r := Ordinal(n);
            |r| >= 3 &&
            (r[|r| - 2..] == "th" <==> (11 <= n % 100 <= 13 || n % 10 == 0 || n % 10 >= 4))
  {
    DecimalRoundTrip(n);
    var r, suffix := Ordinal(n), OrdinalSuffix(n);
    assert |suffix| == 2;
    assert r[|r| - 2..] == suffix;
    SuffixIsTh(n);
  }

  lemma SuffixIsTh(n: nat)
    ensures OrdinalSuffix(n) == "th" <==> (11 <= n % 100 <= 13 || n % 10 == 0 || n % 10 >= 4)
  {
    var suffix := OrdinalSuffix(n);
    if !(11 <= n % 100 <= 13) && 1 <= n % 10 <= 3 {
      assert suffix[0] != 't';
    }
  }

  lemma OrdinalExamples()
    ensures Ordinal(1) == "1st" && Ordinal(11) == "11th" && Ordinal(22) == "22nd"
  {
    assert Decimal(1) == "1";
    assert Decimal(11) == "11";
    assert Decimal(22) == "22";
  }

  // ---------------------------------------------------------------------------
  // Values
  // ---------------------------------------------------------------------------

  /** The key names a placing: its lower-cased form contains "rank" or "place". */
  predicate IsRankKey(key: string) {
    Contains(Lower(key), "rank") || Contains(Lower(key), "place")
  }

  predicate HasDigit(s: string) { exists i | 0 <= i < |s| :: IsDigit(s[i]) }

  /** `parseInt(digits, 10)` on the digits left after stripping: `NaN` (here `None`) when
      no digit is left. */
  function ParseIntDigits(digits: string): (r: Option<nat>)
    requires AllDigits(digits)
    ensures r.None? <==> digits == []
  {
    if digits == [] then None else Some(ParseDigits(digits))
  }

  /** The number formed by all the digits of `s`, in order. */
  function DigitsNumber(s: string): nat {
    ParseDigits(KeepDigits(s))
  }

  /** Stripping the non-digits is filtering by `IsDigit`: every digit of `s` is kept, as
      often as it occurs, in its order, and nothing else. */
  lemma {:induction false} KeepDigitsIsFilter(s: string)
    ensures KeepDigits(s) == Filter(s, IsDigit)
    ensures IsSubsequence(KeepDigits(s), s)
    ensures forall c :: multiset(KeepDigits(s))[c] == if IsDigit(c) then multiset(s)[c] else 0
    decreases |s|
  {
    if s != [] {
      KeepDigitsIsFilter(s[1..]);
    }
    FilterIsSubsequence(s, IsDigit);
    FilterCounts(s, IsDigit);
  }

  /** `formatValue`: "-" for a falsy value; for a placing key and a value with a digit, the
      ordinal of the number its digits form; otherwise the value as a string. */
  function FormatValue(key: string, value: Value): (r: string)
    ensures !Truthy(value) ==> r == "-"
    ensures Truthy(value) && IsRankKey(key) && HasDigit(Stringify(value)) ==>
              var n := DigitsNumber(Stringify(value));
              r == Decimal(n) + OrdinalSuffix(n)
    ensures Truthy(value) && !(IsRankKey(key) && HasDigit(Stringify(value))) ==>
              r == Stringify(value)
  {
    if !Truthy(value) then "-"
    else
      var text := Stringify(value);
      KeepDigitsEmpty(text);
      if IsRankKey(key) && ParseIntDigits(KeepDigits(text)).Some? then
        Ordinal(ParseIntDigits(KeepDigits(text)).value)
      else text
  }

  /** A positive or negative number under a placing key shows as the ordinal of its
      absolute value. */
  lemma NumericPlacing(key: string, n: int)
    requires IsRankKey(key) && n != 0
    ensures var m := if n < 0 then -n else n;
            FormatValue(key, Number(n)) == Decimal(m) + OrdinalSuffix(m)
  {
    var m: nat := if n < 0 then -n else n;
    DecimalRoundTrip(m);
    KeepDigitsOfDigits(Decimal(m));
    var text := Stringify(Number(n));
    assert IsDigit(Decimal(m)[0]);
    if n < 0 {
      assert text == "-" + Decimal(m);
      assert KeepDigits(text) == KeepDigits(text[1..]);
      assert text[1..] == Decimal(m);
      assert IsDigit(text[1]);
    } else {
      assert text == Decimal(m);
      assert IsDigit(text[0]);
    }
  }

  /** A falsy value is the only way to get "-" other than a value that is itself "-". */
  lemma DashMeansFalsy(key: string, value: Value)
    requires FormatValue(key, value) == "-"
    ensures !Truthy(value) || Stringify(value) == "-"
  {
  }

  /** A placing with no digit is shown as it is. */
  lemma PlacingWithoutDigitExample()
    ensures FormatValue("place", Text("DNF")) == "DNF"
  {
    assert !HasDigit("DNF");
  }

  /** A placing's digits are read out of punctuation. */
  lemma PlacingWithPunctuationExample()
    ensures FormatValue("place_rank", Text("3.")) == "3rd"
  {
    assert OccursAt(Lower("place_rank"), "place", 0);
    assert IsDigit("3."[0]);
    assert KeepDigits("3.") == "3";
    assert ParseDigits("3") == 3;
  }

  lemma EmptyValueExample()
    ensures FormatValue("custom_note", Text("")) == "-"
  {
  }

  /** A label built character by character from the fallback rule is the label `formatKey`
      gives a key outside the table. */
  lemma FallbackLabelIs(key: string, e: string)
    requires key !in DisplayNames && |e| == |key|
    requires forall i :: 0 <= i < |key| ==> e[i] == FallbackCharAt(key, i)
    ensures FormatKey(key) == e
  {
  }

  lemma FallbackLabelExample()
    ensures FormatKey("custom_note") == "Custom Note"
  {
    var key, e := "custom_note", "Custom Note";
    forall i | 0 <= i < |key| ensures e[i] == FallbackCharAt(key, i) {
      if i == 0 || i == 7 {
        assert IsAlnum(key[i]);
      } else if i != 6 {
        assert IsAlnum(key[i - 1]);
      }
    }
    FallbackLabelIs(key, e);
  }

  // ---------------------------------------------------------------------------
  // Ordering
  // ---------------------------------------------------------------------------

  /** `getSortPriority`: keyword groups tried in order, on the lower-cased key. */
  function SortPriority(key: string): (r: int)
    ensures 1 <= r <= 4
  {
    var k := Lower(key);
    if Contains(k, "place") || Contains(k, "rank") || Contains(k, "pos") then 1
    else if Contains(k, "mark") || Contains(k, "result") || Contains(k, "time") then 2
    else if Contains(k, "discipline") || Contains(k, "event") then 3
    else 4
  }

  /** The priority rules as data: each keyword group with its priority, first match wins. */
  const PriorityRules: seq<(seq<string>, int)> := [
    (["place", "rank", "pos"], 1),
    (["mark", "result", "time"], 2),
    (["discipline", "event"], 3)
  ]

  const DefaultPriority := 4

  predicate MentionsAny(k: string, words: seq<string>) {
    exists w | w in words :: Contains(k, w)
  }

  /** The priority of the first rule one of whose keywords `k` contains. */
  function FirstMatch(rules: seq<(seq<string>, int)>, k: string): int
    decreases |rules|
  {
    if rules == [] then DefaultPriority
    else if MentionsAny(k, rules[0].0) then rules[0].1
    else FirstMatch(rules[1..], k)
  }

  /** `getSortPriority` is the first-match reading of the rule table. */
  lemma SortPriorityByRules(key: string)
    ensures SortPriority(key) == FirstMatch(PriorityRules, Lower(key))
  {
    var k := Lower(key);
    var r0, r1, r2 := PriorityRules[0].0, PriorityRules[1].0, PriorityRules[2].0;
    assert MentionsAny(k, r0) <==> Contains(k, "place") || Contains(k, "rank") || Contains(k, "pos") by {
      assert r0 == ["place", "rank", "pos"];
    }
    assert MentionsAny(k, r1) <==> Contains(k, "mark") || Contains(k, "result") || Contains(k, "time") by {
      assert r1 == ["mark", "result", "time"];
    }
    assert MentionsAny(k, r2) <==> Contains(k, "discipline") || Contains(k, "event") by {
      assert r2 == ["discipline", "event"];
    }
    assert PriorityRules[1..][1..][1..] == [];
  }

  /** The first keyword group wins: a key naming both a place and a time sorts as a place. */
  lemma FirstGroupWinsExample()
    ensures SortPriority("place_time") == 1 && SortPriority("Place_Time") == 1
  {
    assert OccursAt(Lower("place_time"), "place", 0);
    assert OccursAt(Lower("Place_Time"), "place", 0);
  }

  /** Matching ignores case: keys that lower-case alike have the same priority. */
  lemma SortPriorityIgnoresCase(a: string, b: string)
    requires Lower(a) == Lower(b)
    ensures SortPriority(a) == SortPriority(b)
  {
  }

  /** The comparator passed to `sort`: priority first, then the key. */
  function CompareEntries(a: Entry, b: Entry): (r: int)
    ensures r < 0 <==> StrictlyBefore(a, b)
    ensures r == 0 <==> a.key == b.key
  {
    var pa := SortPriority(a.key);
    var pb := SortPriority(b.key);
    if pa != pb then pa - pb else LocaleCompare(a.key, b.key)
  }

  /** `a` may stand before `b`: lower priority, or equal priority and a key not after `b`'s. */
  predicate InOrder(a: Entry, b: Entry) {
    var pa, pb := SortPriority(a.key), SortPriority(b.key);
    pa < pb || (pa == pb && (a.key == b.key || StrLess(a.key, b.key)))
  }

  /** `a` stands strictly before `b`: lower priority, or equal priority and a smaller key. */
  predicate StrictlyBefore(a: Entry, b: Entry) {
    var pa, pb := SortPriority(a.key), SortPriority(b.key);
    pa < pb || (pa == pb && StrLess(a.key, b.key))
  }

  lemma CompareEntriesAntisymmetric()
    ensures Antisymmetric(CompareEntries)
  {
    forall a, b ensures CompareEntries(a, b) > 0 <==> CompareEntries(b, a) < 0 {
      StrLessTotal(a.key, b.key);
    }
  }

  lemma CompareEntriesInOrder(a: Entry, b: Entry)
    ensures CompareEntries(a, b) <= 0 <==> InOrder(a, b)
  {
  }

  /** `getSortedEntries`: nothing for an absent record; otherwise its entries, rearranged so
      that every entry is in order with the next. */
  function SortedEntries(record: Option<seq<Entry>>): (r: seq<Entry>)
    ensures record.None? ==> r == []
    ensures record.Some? ==> multiset(r) == multiset(record.value)
    ensures forall i :: 0 <= i < |r| - 1 ==> InOrder(r[i], r[i + 1])
  {
    if record.None? then []
    else
      CompareEntriesAntisymmetric();
      SortBySorted(record.value, CompareEntries);
      var r := SortBy(record.value, CompareEntries);
      assert forall i :: 0 <= i < |r| - 1 ==> CompareEntries(r[i], r[i + 1]) <= 0;
      r
  }

  // ---------------------------------------------------------------------------
  // Distinct keys
  // ---------------------------------------------------------------------------

  /** The keys of an object's entries are pairwise different. */
  predicate DistinctKeys(es: seq<Entry>) {
    forall i, j :: 0 <= i < j < |es| ==> es[i].key != es[j].key
  }

  predicate HasKey(es: seq<Entry>, key: string) {
    exists i | 0 <= i < |es| :: es[i].key == key
  }

  lemma {:induction false} DistinctKeysOnce(es: seq<Entry>, e: Entry)
    requires DistinctKeys(es)
    ensures multiset(es)[e] <= 1
    decreases |es|
  {
    if es != [] {
      assert es == [es[0]] + es[1..];
      DistinctKeysOnce(es[1..], e);
      if es[0] == e {
        assert e !in es[1..];
      }
    }
  }

  /** Two different entries of a record with distinct keys have different keys. */
  lemma KeysDiffer(s: seq<Entry>, x: Entry, y: Entry)
    requires DistinctKeys(s) && x in s && y in s && x != y
    ensures x.key != y.key
  {
    var a :| 0 <= a < |s| && s[a] == x;
    var b :| 0 <= b < |s| && s[b] == y;
    assert a != b;
    if a < b {
      assert s[a].key != s[b].key;
    } else {
      assert s[b].key != s[a].key;
    }
  }

  /** An element found at two positions occurs at least twice. */
  lemma RepeatedTwice<T>(t: seq<T>, i: nat, j: nat)
    requires i < j < |t| && t[i] == t[j]
    ensures multiset(t)[t[i]] >= 2
  {
    assert t == t[..i] + [t[i]] + t[i + 1..j] + [t[j]] + t[j + 1..];
  }

  lemma DistinctKeysPermutation(s: seq<Entry>, t: seq<Entry>)
    requires DistinctKeys(s) && multiset(s) == multiset(t)
    ensures DistinctKeys(t)
  {
    forall i, j | 0 <= i < j < |t| ensures t[i].key != t[j].key {
      DistinctKeysOnce(s, t[i]);
      if t[i] == t[j] {
        RepeatedTwice(t, i, j);
      } else {
        assert t[i] in multiset(s) && t[j] in multiset(s);
        KeysDiffer(s, t[i], t[j]);
      }
    }
  }

  /** With distinct keys, neighbours of the sorted record are strictly ordered: the priority
      never decreases, and within one priority the keys strictly increase. */
  lemma SortedEntriesStrict(es: seq<Entry>)
    requires DistinctKeys(es)
    ensures var r := SortedEntries(Some(es));
            DistinctKeys(r) && forall i :: 0 <= i < |r| - 1 ==> StrictlyBefore(r[i], r[i + 1])
  {
    var r := SortedEntries(Some(es));
    DistinctKeysPermutation(es, r);
    forall i | 0 <= i < |r| - 1 ensures StrictlyBefore(r[i], r[i + 1]) {
      assert InOrder(r[i], r[i + 1]);
      assert r[i].key != r[i + 1].key;
    }
  }

  lemma StrictlyBeforeTransitive(a: Entry, b: Entry, c: Entry)
    requires StrictlyBefore(a, b) && StrictlyBefore(b, c)
    ensures StrictlyBefore(a, c)
  {
    if SortPriority(a.key) == SortPriority(b.key) == SortPriority(c.key) {
      StrLessTransitive(a.key, b.key, c.key);
    }
  }

  lemma StrictlyBeforeAsymmetric(a: Entry, b: Entry)
    ensures !(StrictlyBefore(a, b) && StrictlyBefore(b, a))
  {
    StrLessTotal(a.key, b.key);
  }

  /** In a sequence whose neighbours are strictly ordered, every element is strictly after
      all the ones before it. */
  lemma {:induction false} StrictlyOrderedPairwise(t: seq<Entry>, i: nat, j: nat)
    requires forall k :: 0 <= k < |t| - 1 ==> StrictlyBefore(t[k], t[k + 1])
    requires i < j < |t|
    ensures StrictlyBefore(t[i], t[j])
    decreases j - i
  {
    if i + 1 < j {
      StrictlyOrderedPairwise(t, i + 1, j);
      StrictlyBeforeTransitive(t[i], t[i + 1], t[j]);
    }
  }

  /** The first element of a strictly ordered sequence comes before every other element. */
  lemma HeadIsLeast(t: seq<Entry>, x: Entry)
    requires forall k :: 0 <= k < |t| - 1 ==> StrictlyBefore(t[k], t[k + 1])
    requires x in t
    ensures x == t[0] || StrictlyBefore(t[0], x)
  {
    var j :| 0 <= j < |t| && t[j] == x;
    if j > 0 {
      StrictlyOrderedPairwise(t, 0, j);
    }
  }

  /** Two strictly ordered arrangements of the same entries are the same sequence. */
  lemma {:induction false} StrictlyOrderedUnique(s: seq<Entry>, t: seq<Entry>)
    requires multiset(s) == multiset(t)
    requires forall k :: 0 <= k < |s| - 1 ==> StrictlyBefore(s[k], s[k + 1])
    requires forall k :: 0 <= k < |t| - 1 ==> StrictlyBefore(t[k], t[k + 1])
    ensures s == t
    decreases |s|
  {
    assert |s| == |multiset(s)| == |t|;
    if s != [] {
      SameHead(s, t);
      DropHead(s);
      DropHead(t);
      StrictlyOrderedUnique(s[1..], t[1..]);
      assert s == [s[0]] + s[1..] && t == [t[0]] + t[1..];
    }
  }

  /** Two strictly ordered arrangements of the same entries start with the same entry. */
  lemma SameHead(s: seq<Entry>, t: seq<Entry>)
    requires multiset(s) == multiset(t) && |s| > 0 && |t| > 0
    requires forall k :: 0 <= k < |s| - 1 ==> StrictlyBefore(s[k], s[k + 1])
    requires forall k :: 0 <= k < |t| - 1 ==> StrictlyBefore(t[k], t[k + 1])
    ensures s[0] == t[0]
  {
    assert s[0] in multiset(t) && t[0] in multiset(s);
    HeadIsLeast(s, t[0]);
    HeadIsLeast(t, s[0]);
    StrictlyBeforeAsymmetric(s[0], t[0]);
  }

  /** Dropping the first entry takes one copy of it out of the multiset. */
  lemma DropHead(s: seq<Entry>)
    requires |s| > 0
    ensures multiset(s[1..]) == multiset(s) - multiset{s[0]}
  {
    assert s == [s[0]] + s[1..];
  }

  /** For a record with distinct keys, the sorted entries are the only arrangement of its
      entries ordered by priority and then strictly by key: any correct sort with this
      comparator returns exactly them, whatever order `Object.entries` produced. */
  lemma SortedEntriesUnique(es: seq<Entry>, t: seq<Entry>)
    requires DistinctKeys(es)
    requires multiset(t) == multiset(es)
    requires forall k :: 0 <= k < |t| - 1 ==> StrictlyBefore(t[k], t[k + 1])
    ensures t == SortedEntries(Some(es))
  {
    SortedEntriesStrict(es);
    StrictlyOrderedUnique(t, SortedEntries(Some(es)));
  }

  /** The sorted entries depend only on the record's entries, not on the order in which
      `Object.entries` lists them. */
  lemma SortedEntriesOrderIndependent(es: seq<Entry>, fs: seq<Entry>)
    requires DistinctKeys(es) && multiset(es) == multiset(fs)
    ensures SortedEntries(Some(es)) == SortedEntries(Some(fs))
  {
    DistinctKeysPermutation(es, fs);
    SortedEntriesStrict(fs);
    SortedEntriesUnique(es, SortedEntries(Some(fs)));
  }

  // ---------------------------------------------------------------------------
  // Rows
  // ---------------------------------------------------------------------------

  /** The row-map callback: `null` for the hidden entry, a labelled row otherwise. */
  function RenderEntry(e: Entry): Option<Row> {
    if !Shown(e) then None else Some(MakeRow(e))
  }

  /** `entries.map(callback)` with React dropping the `null` children. */
  function RenderEntries(es: seq<Entry>): seq<Row>
    decreases |es|
  {
    if es == [] then []
    else
      var rest := RenderEntries(es[1..]);
      match RenderEntry(es[0])
      case None => rest
      case Some(row) => [row] + rest
  }

  predicate Shown(e: Entry) { e.key != HiddenKey }

  function MakeRow(e: Entry): Row {
    Row(e.key, FormatKey(e.key), FormatValue(e.key, e.value))
  }

  /** One row per shown entry, each built from its entry, in the order of the entries. */
  lemma {:induction false} RenderEntriesRows(es: seq<Entry>)
    ensures var rows := RenderEntries(es);
            var shown := Filter(es, Shown);
            |rows| == |shown| && forall i :: 0 <= i < |rows| ==> rows[i] == MakeRow(shown[i])
    decreases |es|
  {
    if es != [] {
      var rest := es[1..];
      RenderEntriesRows(rest);
      if Shown(es[0]) {
        assert Filter(es, Shown) == [es[0]] + Filter(rest, Shown);
        assert RenderEntries(es) == [MakeRow(es[0])] + RenderEntries(rest);
      } else {
        assert Filter(es, Shown) == Filter(rest, Shown);
        assert RenderEntries(es) == RenderEntries(rest);
      }
    }
  }

  /** The stats area of an event card. */
  function DetailStats(result: Payload): (s: Stats)
  {
    if result.Object? then Rows(RenderEntries(SortedEntries(Some(result.entries))))
    else Placeholder("No detailed results available.")
  }

  /** A primitive result shows only the placeholder; an object shows, in sorted order, one
      row per entry but the hidden one, made from that entry. */
  lemma DetailStatsRows(result: Payload)
    ensures result.Primitive? ==> DetailStats(result) == Placeholder("No detailed results available.")
    ensures result.Object? ==>
              var shown := Filter(SortedEntries(Some(result.entries)), Shown);
              var s := DetailStats(result);
              s.Rows? && |s.rows| == |shown| &&
              forall i :: 0 <= i < |s.rows| ==> s.rows[i] == MakeRow(shown[i])
  {
    if result.Object? {
      RenderEntriesRows(SortedEntries(Some(result.entries)));
    }
  }

  /** No row is ever the hidden entry's. */
  lemma {:induction false} RenderEntriesHideId(es: seq<Entry>)
    ensures forall i :: 0 <= i < |RenderEntries(es)| ==> RenderEntries(es)[i].key != HiddenKey
    decreases |es|
  {
    if es != [] {
      RenderEntriesHideId(es[1..]);
    }
  }

  /** In entries with distinct keys, the shown entries are all but one when the hidden key
      is present, and all of them otherwise. */
  lemma {:induction false} ShownCount(es: seq<Entry>)
    requires DistinctKeys(es)
    ensures |Filter(es, Shown)| == |es| - (if HasKey(es, HiddenKey) then 1 else 0)
    decreases |es|
  {
    if es != [] {
      ShownCount(es[1..]);
      if es[0].key == HiddenKey {
        assert !HasKey(es[1..], HiddenKey);
      } else {
        assert HasKey(es, HiddenKey) <==> HasKey(es[1..], HiddenKey) by {
          if HasKey(es, HiddenKey) {
            var j :| 0 <= j < |es| && es[j].key == HiddenKey;
            assert es[1..][j - 1].key == HiddenKey;
          }
          if HasKey(es[1..], HiddenKey) {
            var j :| 0 <= j < |es[1..]| && es[1..][j].key == HiddenKey;
            assert es[1 + j].key == HiddenKey;
          }
        }
      }
    }
  }

  /** A record with distinct keys renders one row per key, less one if `hidden_id` is a key. */
  lemma StatsRowCount(es: seq<Entry>)
    requires DistinctKeys(es)
    ensures var s := DetailStats(Object(es));
            s.Rows? && |s.rows| == |es| - (if HasKey(es, HiddenKey) then 1 else 0)
  {
    var r := SortedEntries(Some(es));
    SortedEntriesStrict(es);
    ShownCount(r);
    RenderEntriesRows(r);
    assert HasKey(es, HiddenKey) <==> HasKey(r, HiddenKey) by {
      if HasKey(es, HiddenKey) {
        var j :| 0 <= j < |es| && es[j].key == HiddenKey;
        assert es[j] in multiset(r);
      }
      if HasKey(r, HiddenKey) {
        var j :| 0 <= j < |r| && r[j].key == HiddenKey;
        assert r[j] in multiset(es);
      }
    }
  }
}

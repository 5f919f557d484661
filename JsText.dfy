/**
 * The few JavaScript string and number built-ins the screens rely on, restricted to
 * what the screens feed them: ASCII case mapping (`toLowerCase`, `toUpperCase`),
 * `String.prototype.includes`, `String(n)` for integers, `parseInt(s, 10)` on a string of
 * decimal digits, the truncating remainder operator `%`, and a plain lexicographic order
 * standing in for `localeCompare`.
 */
module JsText {

  /** A value that may be `undefined`. */
  datatype Option<T> = None | Some(value: T)

  // ---------------------------------------------------------------------------
  // Primitive values as they arrive in a result record
  // ---------------------------------------------------------------------------

  /** A primitive JavaScript value: `undefined`, `null`, a string, or an integral number. */
  datatype Value = Undefined | Null | Text(s: string) | Number(n: int)

  /** JavaScript truthiness: everything but `undefined`, `null`, `""` and `0`. */
  predicate Truthy(v: Value) {
    match v
    case Undefined => false
    case Null => false
    case Text(s) => s != ""
    case Number(n) => n != 0
  }

  /** `String(v)`. */
  function Stringify(v: Value): string {
    match v
    case Undefined => "undefined"
    case Null => "null"
    case Text(s) => s
    case Number(n) => IntToString(n)
  }

  /** `a[i]` on an array of strings: `undefined` outside the bounds. */
  function At(a: seq<string>, i: int): (r: Option<string>)
    ensures r.Some? <==> 0 <= i < |a|
    ensures r.Some? ==> r.value == a[i]
  {
    if 0 <= i < |a| then Some(a[i]) else None
  }

  /** `x || y` on strings that may be `undefined`: `x` when it is truthy, otherwise `y`. */
  function Or(x: Option<string>, y: Option<string>): (r: Option<string>)
    ensures x.Some? && x.value != "" ==> r == x
    ensures !(x.Some? && x.value != "") ==> r == y
  {
    if x.Some? && x.value != "" then x else y
  }

  /** `n + x` for a number `n` and a string or `undefined` `x`: string concatenation after
      `String(n)`, or the number `NaN` (shown as "NaN") when `x` is `undefined`. */
  function NumberPlus(n: nat, x: Option<string>): (r: string)
    ensures x.Some? ==> r == Decimal(n) + x.value
    ensures x.None? ==> r == "NaN"
  {
    if x.Some? then Decimal(n) + x.value else "NaN"
  }

  // ---------------------------------------------------------------------------
  // Characters
  // ---------------------------------------------------------------------------

  predicate IsDigit(c: char) { '0' <= c <= '9' }

  predicate IsAsciiUpper(c: char) { 'A' <= c <= 'Z' }

  predicate IsAsciiLower(c: char) { 'a' <= c <= 'z' }

  /** A character of the regular-expression class `\w`: `[A-Za-z0-9_]`. */
  predicate IsWordChar(c: char) { IsAsciiUpper(c) || IsAsciiLower(c) || IsDigit(c) || c == '_' }

  function LowerChar(c: char): (r: char)
    ensures !IsAsciiUpper(r)
    ensures IsAsciiUpper(c) ==> r as int == c as int + 32
    ensures !IsAsciiUpper(c) ==> r == c
  {
    if IsAsciiUpper(c) then (c as int + 32) as char else c
  }

  function UpperChar(c: char): (r: char)
    ensures !IsAsciiLower(r)
    ensures IsAsciiLower(c) ==> r as int == c as int - 32
    ensures !IsAsciiLower(c) ==> r == c
  {
    if IsAsciiLower(c) then (c as int - 32) as char else c
  }

  /** `s.toLowerCase()` on ASCII. */
  function Lower(s: string): (r: string)
    ensures |r| == |s|
    ensures forall i :: 0 <= i < |s| ==> r[i] == LowerChar(s[i])
  {
    seq(|s|, i requires 0 <= i < |s| => LowerChar(s[i]))
  }

  // ---------------------------------------------------------------------------
  // Substrings
  // ---------------------------------------------------------------------------

  /** `s.includes(sub)`: `sub` occurs in `s` at some position (the empty string always does). */
  predicate Contains(s: string, sub: string) {
    exists i | 0 <= i <= |s| - |sub| :: OccursAt(s, sub, i)
  }

  /** `sub` occurs in `s` starting at index `i`. */
  predicate OccursAt(s: string, sub: string, i: nat) {
    i + |sub| <= |s| && s[i..i + |sub|] == sub
  }

  // ---------------------------------------------------------------------------
  // The two regular-expression replacements of the label fallback
  // ---------------------------------------------------------------------------

  /** `s.replace(/_/g, ' ')`. */
  function UnderscoresToSpaces(s: string): (r: string)
    ensures |r| == |s|
    ensures forall i :: 0 <= i < |s| ==> r[i] == if s[i] == '_' then ' ' else s[i]
  {
    seq(|s|, i requires 0 <= i < |s| => if s[i] == '_' then ' ' else s[i])
  }

  /** `s.replace(/\b\w/g, c => c.toUpperCase())`, scanning left to right; `afterWord` says
      whether the character before `s` was a word character. */
  function UpperWordStarts(s: string, afterWord: bool): (r: string)
    ensures |r| == |s|
    decreases |s|
  {
    if s == [] then []
    else
      [if IsWordChar(s[0]) && !afterWord then UpperChar(s[0]) else s[0]]
      + UpperWordStarts(s[1..], IsWordChar(s[0]))
  }

  /** A word starts at `i`: a word character with no word character just before it. */
  predicate WordStartAt(s: string, i: nat)
    requires i < |s|
  {
    IsWordChar(s[i]) && (i == 0 || !IsWordChar(s[i - 1]))
  }

  /** Position by position, `UpperWordStarts` upper-cases exactly the word starts. */
  lemma {:induction false} UpperWordStartsAt(s: string, i: nat)
    requires i < |s|
    ensures UpperWordStarts(s, false)[i] == if WordStartAt(s, i) then UpperChar(s[i]) else s[i]
  {
    UpperWordStartsFrom(s, i, false);
  }

  lemma {:induction false} UpperWordStartsFrom(s: string, i: nat, afterWord: bool)
    requires i < |s|
    ensures UpperWordStarts(s, afterWord)[i]
            == if IsWordChar(s[i]) && !(if i == 0 then afterWord else IsWordChar(s[i - 1]))
               then UpperChar(s[i]) else s[i]
    decreases i
  {
    if i > 0 {
      UpperWordStartsFrom(s[1..], i - 1, IsWordChar(s[0]));
      assert s[1..][i - 1] == s[i];
      if i > 1 {
        assert s[1..][i - 2] == s[i - 1];
      }
    }
  }

  // ---------------------------------------------------------------------------
  // Decimal numerals
  // ---------------------------------------------------------------------------

  predicate AllDigits(s: string) { forall i :: 0 <= i < |s| ==> IsDigit(s[i]) }

  function DigitChar(d: nat): (c: char)
    requires d < 10
    ensures IsDigit(c) && c as int - '0' as int == d
  {
    ('0' as int + d) as char
  }

  function DigitValue(c: char): (d: nat)
    requires IsDigit(c)
    ensures d < 10 && DigitChar(d) == c
  {
    c as int - '0' as int
  }

  /** `String(n)` for a natural number: its decimal digits, no leading zero. */
  function Decimal(n: nat): (r: string)
    decreases n
  {
    if n < 10 then [DigitChar(n)] else Decimal(n / 10) + [DigitChar(n % 10)]
  }

  /** `String(i)` for an integer: a minus sign before the digits of a negative number. */
  function IntToString(i: int): (r: string)
  {
    if i < 0 then "-" + Decimal(-i) else Decimal(i)
  }

  /** `parseInt(s, 10)` on a non-empty string made only of digits (leading zeros allowed). */
  function ParseDigits(s: string): (n: nat)
    requires AllDigits(s)
    decreases |s|
  {
    if s == [] then 0 else ParseDigits(s[..|s| - 1]) * 10 + DigitValue(s[|s| - 1])
  }

  /** Printing a natural number and parsing it back yields the number; the printed form
      is a non-empty digit string without a leading zero. */
  lemma {:induction false} DecimalRoundTrip(n: nat)
    ensures |Decimal(n)| >= 1
    ensures AllDigits(Decimal(n))
    ensures ParseDigits(Decimal(n)) == n
    ensures Decimal(n)[0] == '0' <==> n == 0
    decreases n
  {
    if n >= 10 {
      DecimalRoundTrip(n / 10);
      var s := Decimal(n / 10);
      var t := Decimal(n);
      assert t == s + [DigitChar(n % 10)];
      assert t[..|t| - 1] == s;
      assert t[0] == s[0];
    }
  }

  /** `s.replace(/[^0-9]/g, '')`: the digits of `s`, in order. */
  function KeepDigits(s: string): (r: string)
    ensures AllDigits(r)
    ensures |r| <= |s|
    decreases |s|
  {
    if s == [] then []
    else (if IsDigit(s[0]) then [s[0]] else []) + KeepDigits(s[1..])
  }

  lemma {:induction false} KeepDigitsOfDigits(s: string)
    requires AllDigits(s)
    ensures KeepDigits(s) == s
    decreases |s|
  {
    if s != [] {
      KeepDigitsOfDigits(s[1..]);
    }
  }

  /** The digit string is empty exactly when `s` has no digit. */
  lemma {:induction false} KeepDigitsEmpty(s: string)
    ensures KeepDigits(s) == [] <==> forall i :: 0 <= i < |s| ==> !IsDigit(s[i])
    decreases |s|
  {
    if s != [] {
      KeepDigitsEmpty(s[1..]);
      if !IsDigit(s[0]) {
        forall i | 0 < i < |s| && !IsDigit(s[1..][i - 1]) ensures !IsDigit(s[i]) {
        }
      }
    }
  }

  // ---------------------------------------------------------------------------
  // Integer remainder as JavaScript computes it
  // ---------------------------------------------------------------------------

  /** JavaScript's `a % d` for a positive divisor: the remainder of the quotient truncated
      toward zero, so it carries the sign of `a` (Dafny's own `%` never goes negative). */
  function TruncRem(a: int, d: nat): (r: int)
    requires d > 0
    ensures a >= 0 ==> 0 <= r < d
    ensures a < 0 ==> -(d as int) < r <= 0
    ensures a == TruncQuot(a, d) * d + r
  {
    if a >= 0 then a % d
    else
      var q := (-a) / d;
      assert -a == q * d + (-a) % d;
      assert -(q * d) == (-q) * d;
      -((-a) % d)
  }

  /** The quotient `a / d` truncated toward zero, which `TruncRem` completes. */
  function TruncQuot(a: int, d: nat): int
    requires d > 0
  {
    if a >= 0 then a / d else -((-a) / d)
  }

  // ---------------------------------------------------------------------------
  // String order standing in for localeCompare
  // ---------------------------------------------------------------------------

  /** Lexicographic order on code units: a proper prefix comes first. */
  predicate StrLess(a: string, b: string)
    decreases |a|
  {
    if a == [] then b != []
    else if b == [] then false
    else if a[0] != b[0] then a[0] < b[0]
    else StrLess(a[1..], b[1..])
  }

  /** `a.localeCompare(b)`: negative, zero or positive. */
  function LocaleCompare(a: string, b: string): (r: int)
    ensures r == 0 <==> a == b
    ensures r < 0 <==> StrLess(a, b)
  {
    if a == b then StrLessIrreflexive(a); 0 else if StrLess(a, b) then -1 else 1
  }

  lemma {:induction false} StrLessIrreflexive(a: string)
    ensures !StrLess(a, a)
    decreases |a|
  {
    if a != [] {
      StrLessIrreflexive(a[1..]);
    }
  }

  /** Two different strings are ordered one way and not the other. */
  lemma {:induction false} StrLessTotal(a: string, b: string)
    ensures a != b ==> (StrLess(a, b) <==> !StrLess(b, a))
    ensures a == b ==> !StrLess(a, b)
    decreases |a|
  {
    if a == b {
      StrLessIrreflexive(a);
    } else if a != [] && b != [] && a[0] == b[0] {
      StrLessTotal(a[1..], b[1..]);
    }
  }

  lemma {:induction false} StrLessTransitive(a: string, b: string, c: string)
    requires StrLess(a, b) && StrLess(b, c)
    ensures StrLess(a, c)
    decreases |a|
  {
    if a != [] && a[0] == b[0] && b[0] == c[0] {
      StrLessTransitive(a[1..], b[1..], c[1..]);
    }
  }
}

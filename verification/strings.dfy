/**
  Text helpers standing in for the engine's FString operations that the
  export/reconcile pipeline relies on.

  Unreal's FString `==`, `!=`, `StartsWith` and `Contains` compare ignoring
  ASCII letter case by default; `FindChar`, `TrimQuotes` and a case-sensitive
  `Replace` work on exact characters. Each of those is given here once, with
  the case rule it uses.
 */
module Strings {

  datatype Option<+T> = None | Some(value: T)

  /** ASCII lower-casing, the folding used by the engine's case-insensitive compares. */
  function Lower(c: char): char {
    if 'A' <= c <= 'Z' then (c as int + 32) as char else c
  }

  /** FString equality with the default (ignore-case) search mode. */
  predicate SameText(a: string, b: string) {
    |a| == |b| && (|a| == 0 || (Lower(a[0]) == Lower(b[0]) && SameText(a[1..], b[1..])))
  }

  lemma SameTextReflexive(a: string)
    ensures SameText(a, a)
  {
  }

  /** `StartsWith` with the default ignore-case search mode. */
  predicate StartsWithText(s: string, prefix: string) {
    |prefix| <= |s| && SameText(s[..|prefix|], prefix)
  }

  /** `sub` occurs in `s` at position `i`, ignoring case. */
  predicate SameTextAt(s: string, sub: string, i: nat) {
    i + |sub| <= |s| && SameText(s[i..i + |sub|], sub)
  }

  /** `Contains` with the default ignore-case search mode. */
  predicate ContainsText(s: string, sub: string) {
    exists i: nat | i <= |s| :: SameTextAt(s, sub, i)
  }

  lemma StartsWithImpliesContains(s: string, sub: string)
    requires StartsWithText(s, sub)
    ensures ContainsText(s, sub)
  {
    assert s[0..0 + |sub|] == s[..|sub|];
    assert SameTextAt(s, sub, 0);
  }

  /** Index of the first occurrence of `c`, as `FindChar` reports it. */
  function FindChar(s: string, c: char): (r: Option<nat>)
    ensures r.None? <==> c !in s
    ensures r.Some? ==> r.value < |s| && s[r.value] == c && c !in s[..r.value]
  {
    if |s| == 0 then None
    else if s[0] == c then Some(0)
    else match FindChar(s[1..], c)
      case None => None
      case Some(k) =>
        assert s[..k + 1] == [s[0]] + s[1..][..k];
        Some(k + 1)
  }

  /**
    `TrimQuotes`: drops one leading `"` and, when the string is longer than
    one character, one trailing `"`.
   */
  function TrimQuotes(s: string): (r: string)
    ensures |s| == 0 ==> r == s
    ensures |s| > 0 && s[0] != '"' && s[|s| - 1] != '"' ==> r == s
    ensures |s| > 0 && s[0] == '"' ==> |r| < |s|
    ensures |s| > 1 && s[0] == '"' && s[|s| - 1] == '"' ==> r == s[1..|s| - 1]
  {
    if |s| == 0 then s
    else
      var start := if s[0] == '"' then 1 else 0;
      var stop := if |s| > 1 && s[|s| - 1] == '"' then |s| - 1 else |s|;
      s[start..stop]
  }

  /** `s` holds `pat` starting at position `i`. */
  predicate OccursAt(s: string, pat: string, i: nat) {
    i + |pat| <= |s| && s[i..i + |pat|] == pat
  }

  /**
    Case-sensitive `Replace`: scans left to right and replaces every
    non-overlapping occurrence of `from` by `to`; an empty `from` leaves the
    string as it is.
   */
  function ReplaceAll(s: string, from: string, to: string): string
    decreases |s|
  {
    if |from| == 0 || |s| < |from| then s
    else if s[..|from|] == from then to + ReplaceAll(s[|from|..], from, to)
    else [s[0]] + ReplaceAll(s[1..], from, to)
  }

  /** A string in which `from` never occurs is returned unchanged. */
  lemma {:induction false} ReplaceAbsent(s: string, from: string, to: string)
    requires forall i: nat :: !OccursAt(s, from, i)
    ensures ReplaceAll(s, from, to) == s
    decreases |s|
  {
    if |from| == 0 || |s| < |from| {
    } else {
      assert !OccursAt(s, from, 0);
      assert s[0..|from|] == s[..|from|];
      forall i: nat
        ensures !OccursAt(s[1..], from, i)
      {
        assert !OccursAt(s, from, i + 1);
        if i + |from| <= |s[1..]| {
          assert s[1..][i..i + |from|] == s[i + 1..i + 1 + |from|];
        }
      }
      ReplaceAbsent(s[1..], from, to);
    }
  }

  /** Dropping the first character keeps the prefix free of occurrences. */
  lemma NoOccurrenceInTail(a: string, from: string, b: string)
    requires |a| > 0
    requires forall i: nat :: i < |a| ==> !OccursAt(a + from + b, from, i)
    ensures forall i: nat :: i < |a[1..]| ==> !OccursAt(a[1..] + from + b, from, i)
  {
    var s := a + from + b;
    assert s[1..] == a[1..] + from + b;
    forall i: nat | i < |a[1..]|
      ensures !OccursAt(a[1..] + from + b, from, i)
    {
      assert !OccursAt(s, from, i + 1);
      if i + |from| <= |s[1..]| {
        assert s[1..][i..i + |from|] == s[i + 1..i + 1 + |from|];
      }
    }
  }

  /**
    Replacement of the first occurrence: when `from` does not start anywhere
    inside `a`, the occurrence right after `a` is the one replaced, and the
    scan resumes after it.
   */
  lemma {:induction false} ReplaceFirst(a: string, from: string, to: string, b: string)
    requires |from| > 0
    requires forall i: nat :: i < |a| ==> !OccursAt(a + from + b, from, i)
    ensures ReplaceAll(a + from + b, from, to) == a + to + ReplaceAll(b, from, to)
    decreases |a|
  {
    var s := a + from + b;
    if |a| == 0 {
      assert s == from + b;
      assert s[..|from|] == from;
      assert s[|from|..] == b;
    } else {
      assert !OccursAt(s, from, 0);
      assert s[0..|from|] == s[..|from|];
      assert s[1..] == a[1..] + from + b;
      NoOccurrenceInTail(a, from, b);
      ReplaceFirst(a[1..], from, to, b);
      assert [s[0]] + (a[1..] + to + ReplaceAll(b, from, to)) == a + to + ReplaceAll(b, from, to);
    }
  }

  // ---------------------------------------------------------------------
  // Decimal numbers: `FCString::Atoi` and its inverse on integers
  // ---------------------------------------------------------------------

  predicate IsDigit(c: char) { '0' <= c <= '9' }

  /** The characters C's `isspace` accepts. */
  predicate IsSpace(c: char) {
    c == ' ' || c == '\t' || c == '\n' || c == '\U{000B}' || c == '\U{000C}' || c == '\r'
  }

  function SkipSpaces(s: string): (r: string)
    ensures |r| <= |s| && r == s[|s| - |r|..]
    ensures |r| > 0 ==> !IsSpace(r[0])
  {
    if |s| > 0 && IsSpace(s[0]) then SkipSpaces(s[1..]) else s
  }

  /** The longest prefix of `s` made of decimal digits. */
  function LeadingDigits(s: string): (r: string)
    ensures |r| <= |s| && r == s[..|r|]
    ensures forall i :: 0 <= i < |r| ==> IsDigit(r[i])
    ensures |r| < |s| ==> !IsDigit(s[|r|])
  {
    if |s| > 0 && IsDigit(s[0]) then [s[0]] + LeadingDigits(s[1..]) else []
  }

  function DigitValue(c: char): nat
    requires IsDigit(c)
  {
    c as int - '0' as int
  }

  /** The value of a string of decimal digits, read most significant first. */
  function DigitsValue(s: string): nat
    requires forall i :: 0 <= i < |s| ==> IsDigit(s[i])
  {
    if |s| == 0 then 0
    else 10 * DigitsValue(s[..|s| - 1]) + DigitValue(s[|s| - 1])
  }

  /**
    C `atoi`: skips leading white space, reads an optional sign and then as
    many decimal digits as follow; no digits reads as 0.
   */
  function Atoi(s: string): int {
    var t := SkipSpaces(s);
    if |t| > 0 && t[0] == '-' then -(DigitsValue(LeadingDigits(t[1..])) as int)
    else if |t| > 0 && t[0] == '+' then DigitsValue(LeadingDigits(t[1..]))
    else DigitsValue(LeadingDigits(t))
  }

  function DigitChar(d: nat): char
    requires d < 10
  {
    ('0' as int + d) as char
  }

  /** Decimal rendering of a natural number, without leading zeros. */
  function NatToString(n: nat): (r: string)
    ensures |r| > 0
    ensures forall i :: 0 <= i < |r| ==> IsDigit(r[i])
  {
    if n < 10 then [DigitChar(n)] else NatToString(n / 10) + [DigitChar(n % 10)]
  }

  /** Decimal rendering of an integer, with a leading `-` when negative. */
  function IntToString(n: int): string {
    if n < 0 then "-" + NatToString(-n) else NatToString(n)
  }

  lemma {:induction false} NatToStringValue(n: nat)
    ensures DigitsValue(NatToString(n)) == n
  {
    var r := NatToString(n);
    if n >= 10 {
      NatToStringValue(n / 10);
      assert r[..|r| - 1] == NatToString(n / 10);
    }
  }

  lemma LeadingDigitsOfDigits(s: string)
    requires forall i :: 0 <= i < |s| ==> IsDigit(s[i])
    ensures LeadingDigits(s) == s
  {
  }

  /** `Atoi` reads back every integer that `IntToString` writes. */
  lemma AtoiIntToString(n: int)
    ensures Atoi(IntToString(n)) == n
  {
    var s := IntToString(n);
    var digits := NatToString(if n < 0 then -n else n);
    assert !IsSpace(s[0]);
    assert SkipSpaces(s) == s;
    if n < 0 {
      assert s[1..] == digits;
    } else {
      assert s == digits;
    }
    LeadingDigitsOfDigits(digits);
    NatToStringValue(if n < 0 then -n else n);
  }
}

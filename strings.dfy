/**
 * String helpers with the semantics of the Qt calls the source relies on:
 * QString::split with a one-character separator (empty parts kept),
 * QString::number for an unsigned value and QString::toUInt in base 10.
 */
module Strings {
  import opened Wrappers

  /** `n` copies of `c` (QString::append in a loop, or QString(n, c)). */
  function Repeat(c: char, n: nat): (r: string)
    ensures |r| == n
    ensures forall i :: 0 <= i < n ==> r[i] == c
  {
    seq(n, _ => c)
  }

  lemma RepeatSnoc(c: char, n: nat)
    ensures Repeat(c, n) + [c] == Repeat(c, n + 1)
  {
  }

  /** The position of the first `sep` in `s`, or |s| when there is none. */
  function NextSep(s: string, sep: char): (i: nat)
    ensures i <= |s|
    ensures i < |s| ==> s[i] == sep
    ensures forall j :: 0 <= j < i ==> s[j] != sep
    decreases |s|
  {
    if |s| == 0 || s[0] == sep then 0 else 1 + NextSep(s[1..], sep)
  }

  /** NextSep is determined by its defining properties. */
  lemma {:induction false} NextSepAt(s: string, sep: char, i: nat)
    requires i <= |s| && (i < |s| ==> s[i] == sep)
    requires forall j :: 0 <= j < i ==> s[j] != sep
    ensures NextSep(s, sep) == i
    decreases |s|
  {
    if i > 0 {
      NextSepAt(s[1..], sep, i - 1);
    }
  }

  /** The parts of `s` between occurrences of `sep`, empty parts kept. */
  function Split(s: string, sep: char): (parts: seq<string>)
    ensures |parts| >= 1
    decreases |s|
  {
    var i := NextSep(s, sep);
    if i == |s| then [s] else [s[..i]] + Split(s[i + 1..], sep)
  }

  /** The parts glued back together with `sep` between neighbours. */
  function Join(parts: seq<string>, sep: char): string
    requires |parts| >= 1
    decreases |parts|
  {
    if |parts| == 1 then parts[0] else parts[0] + [sep] + Join(parts[1..], sep)
  }

  /** No part holds the separator. */
  lemma {:induction false} SplitParts(s: string, sep: char)
    ensures forall k :: 0 <= k < |Split(s, sep)| ==> sep !in Split(s, sep)[k]
    decreases |s|
  {
    var i := NextSep(s, sep);
    if i < |s| {
      SplitParts(s[i + 1..], sep);
      var parts, rest := Split(s, sep), Split(s[i + 1..], sep);
      assert parts == [s[..i]] + rest;
      forall k | 0 <= k < |parts| ensures sep !in parts[k] {
        if k > 0 {
          assert parts[k] == rest[k - 1];
        }
      }
    }
  }

  /** Splitting and joining again gives back the original string. */
  lemma {:induction false} JoinSplit(s: string, sep: char)
    ensures Join(Split(s, sep), sep) == s
    decreases |s|
  {
    var i := NextSep(s, sep);
    if i < |s| {
      var rest := Split(s[i + 1..], sep);
      JoinSplit(s[i + 1..], sep);
      assert Split(s, sep)[1..] == rest;
      assert s == s[..i] + [sep] + s[i + 1..];
    }
  }

  /** A string without the separator is a single part. */
  lemma SplitNoSep(a: string, sep: char)
    requires sep !in a
    ensures Split(a, sep) == [a]
  {
    NextSepAt(a, sep, |a|);
  }

  /** A part without the separator, then the separator, then anything: the part comes first. */
  lemma SplitConcat(a: string, b: string, sep: char)
    requires sep !in a
    ensures Split(a + [sep] + b, sep) == [a] + Split(b, sep)
  {
    var s := a + [sep] + b;
    NextSepAt(s, sep, |a|);
    assert s[..|a|] == a && s[|a| + 1..] == b;
  }

  /** Joining parts that hold no separator and splitting again gives back the parts. */
  lemma {:induction false} SplitJoin(parts: seq<string>, sep: char)
    requires |parts| >= 1
    requires forall i :: 0 <= i < |parts| ==> sep !in parts[i]
    ensures Split(Join(parts, sep), sep) == parts
    decreases |parts|
  {
    if |parts| == 1 {
      SplitNoSep(parts[0], sep);
    } else {
      SplitJoin(parts[1..], sep);
      SplitConcat(parts[0], Join(parts[1..], sep), sep);
      assert [parts[0]] + parts[1..] == parts;
    }
  }

  predicate IsDigit(c: char) { '0' <= c <= '9' }

  function DigitChar(d: nat): (c: char)
    requires d < 10
    ensures IsDigit(c)
  {
    ('0' as int + d) as char
  }

  function DigitValue(c: char): (d: nat)
    requires IsDigit(c)
    ensures d < 10
  {
    c as int - '0' as int
  }

  /** Decimal representation without leading zeros (QString::number). */
  function NumberToString(n: nat): (s: string)
    ensures |s| > 0 && forall i :: 0 <= i < |s| ==> IsDigit(s[i])
    decreases n
  {
    if n < 10 then [DigitChar(n)] else NumberToString(n / 10) + [DigitChar(n % 10)]
  }

  /** The value of a string of decimal digits, most significant first. */
  function DigitsValue(s: string): nat
    requires forall i :: 0 <= i < |s| ==> IsDigit(s[i])
    decreases |s|
  {
    if |s| == 0 then 0 else DigitsValue(s[..|s| - 1]) * 10 + DigitValue(s[|s| - 1])
  }

  const UIntLimit: nat := 0x1_0000_0000

  /**
   * QString::toUInt(&ok) in base 10: a non-empty string of decimal digits whose
   * value fits in 32 bits, or no value.
   */
  function ParseUInt(s: string): (r: Option<nat>)
    ensures r.Some? ==> r.value < UIntLimit
  {
    if |s| > 0 && (forall i :: 0 <= i < |s| ==> IsDigit(s[i])) && DigitsValue(s) < UIntLimit
    then Some(DigitsValue(s))
    else None
  }

  lemma {:induction false} DigitsValueOfNumber(n: nat)
    ensures DigitsValue(NumberToString(n)) == n
    decreases n
  {
    if n >= 10 {
      DigitsValueOfNumber(n / 10);
      var s := NumberToString(n);
      assert s[..|s| - 1] == NumberToString(n / 10);
    }
  }

  /** Printing a 32-bit value and parsing it again gives back the value. */
  lemma NumberParseRoundTrip(n: nat)
    requires n < UIntLimit
    ensures ParseUInt(NumberToString(n)) == Some(n)
  {
    DigitsValueOfNumber(n);
  }

  /** A printed number never holds a character other than a digit. */
  lemma NumberHasOnlyDigits(n: nat, c: char)
    requires !IsDigit(c)
    ensures c !in NumberToString(n)
  {
  }
}

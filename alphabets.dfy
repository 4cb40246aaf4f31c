/**
 * The heuristic modes of a task and the character tables of the brute-force
 * modes (collisionAttackTask_CPU.cpp). The tables are QVector<QString> of
 * one-character strings in the source; here each is a string whose order is
 * the table order.
 */
module Alphabets {
  import opened Wrappers
  import opened Enumeration

  /** The task modes; their numeric codes are 0 ("none"), 1 ("partial") and 2 ("full"). */
  datatype Heuristic = NoHeuristic | Partial | Full

  function Code(h: Heuristic): (c: int)
    ensures 0 <= c <= 2
  {
    match h
    case NoHeuristic => 0
    case Partial => 1
    case Full => 2
  }

  /** The mode with a given numeric code (a static_cast of an int in 0..2). */
  function FromCode(c: int): (h: Heuristic)
    requires 0 <= c <= 2
    ensures Code(h) == c
  {
    if c == 0 then NoHeuristic else if c == 1 then Partial else Full
  }

  lemma CodeRoundTrip(h: Heuristic)
    ensures FromCode(Code(h)) == h
  {
  }

  /** A checkpoint: the first unevaluated candidate of a task and the task's mode (a QPair in the source). */
  datatype Milestone = Milestone(point: string, heur: Heuristic)

  const Digits: string := "0123456789"
  const Lower: string := "abcdefghijklmnopqrstuvwxyz"
  const Upper: string := "ABCDEFGHIJKLMNOPQRSTUVWXYZ"
  /** The special characters of the full table, in table order. */
  const Symbols: string := "_.-!@*$?&%\\\"#'()+,/:;[]^`{|}~ "
  /** The special characters of the partial table: the ten most frequently used ones. */
  const FrequentSymbols: string := "_.-!@*$?&%"

  /**
   * The i-th entry of the table of the "none" mode: digits, lower-case
   * letters, upper-case letters, then the special characters.
   */
  function TableChar(i: int): char
    requires 0 <= i < 92
  {
    if i < 10 then Digits[i]
    else if i < 36 then Lower[i - 10]
    else if i < 62 then Upper[i - 36]
    else Symbols[i - 62]
  }

  /**
   * The table of the "none" mode: 92 characters. The table of the "partial"
   * mode lists the same characters in the same order up to '%', which makes
   * it the first 72 entries.
   */
  function FullAlphabet(): (A: string)
    ensures |A| == 92
  {
    seq(92, TableChar)
  }

  function PartAlphabet(): (A: string)
    ensures |A| == 72
  {
    FullAlphabet()[..72]
  }

  /** The tables written out chunk by chunk. */
  lemma TablesByChunks()
    ensures FullAlphabet() == Digits + Lower + Upper + Symbols
    ensures PartAlphabet() == Digits + Lower + Upper + FrequentSymbols
  {
    var chunks := Digits + Lower + Upper + Symbols;
    forall i | 0 <= i < 92
      ensures FullAlphabet()[i] == chunks[i]
    {
      if i < 10 {
      } else if i < 36 {
        assert chunks[i] == (Digits + Lower)[i];
      } else if i < 62 {
        assert chunks[i] == (Digits + Lower + Upper)[i];
      }
    }
    assert Symbols[..10] == FrequentSymbols;
    assert chunks[..72] == Digits + Lower + Upper + Symbols[..10];
  }

  /** The longest password tried by a "partial" task. */
  const OptimalMaxPL: nat := 20

  /** The table of a mode; the "full" (dictionary) mode has none (a null pointer). */
  function GetAlphabet(h: Heuristic): (r: Option<string>)
    ensures r.None? <==> h == Full
    ensures h == NoHeuristic ==> r == Some(FullAlphabet())
    ensures h == Partial ==> r == Some(PartAlphabet())
  {
    match h
    case NoHeuristic => Some(FullAlphabet())
    case Partial => Some(PartAlphabet())
    case Full => None
  }

  /** Distinct positions: a function that recovers every position from its character. */
  lemma InverseDistinct(A: string, pos: char -> int)
    requires forall i :: 0 <= i < |A| ==> pos(A[i]) == i
    ensures Distinct(A)
  {
    forall k | 0 <= k < |A| ensures IndexOf(A, A[k]) == k {
      var m := IndexOf(A, A[k]);
      assert pos(A[m]) == pos(A[k]);
    }
  }

  lemma DigitsCodes() ensures forall i :: 0 <= i < |Digits| ==> Digits[i] as int == 48 + i {}
  lemma LowerCodes() ensures forall i :: 0 <= i < |Lower| ==> Lower[i] as int == 97 + i {}
  lemma UpperCodes() ensures forall i :: 0 <= i < |Upper| ==> Upper[i] as int == 65 + i {}

  /** The position of a special character in Symbols (-1 for any other character). */
  function SymbolPos(c: char): int {
    if c == '_' then 0 else if c == '.' then 1 else if c == '-' then 2 else if c == '!' then 3
    else if c == '@' then 4 else if c == '*' then 5 else if c == '$' then 6 else if c == '?' then 7
    else if c == '&' then 8 else if c == '%' then 9 else if c == '\\' then 10 else if c == '"' then 11
    else if c == '#' then 12 else if c == '\'' then 13 else if c == '(' then 14 else if c == ')' then 15
    else if c == '+' then 16 else if c == ',' then 17 else if c == '/' then 18 else if c == ':' then 19
    else if c == ';' then 20 else if c == '[' then 21 else if c == ']' then 22 else if c == '^' then 23
    else if c == '`' then 24 else if c == '{' then 25 else if c == '|' then 26 else if c == '}' then 27
    else if c == '~' then 28 else if c == ' ' then 29 else -1
  }
  lemma SymbolsPositions()
    ensures forall i :: 0 <= i < |Symbols| ==> SymbolPos(Symbols[i]) == i
  {
  }

  lemma SymbolsOutsideRanges()
    ensures forall i :: 0 <= i < |Symbols| ==>
      !('0' <= Symbols[i] <= '9') && !('a' <= Symbols[i] <= 'z') && !('A' <= Symbols[i] <= 'Z')
  {
  }

  /** The position of a character in the full table. */
  function TablePos(c: char): int {
    if '0' <= c <= '9' then c as int - 48
    else if 'a' <= c <= 'z' then c as int - 87
    else if 'A' <= c <= 'Z' then c as int - 29
    else 62 + SymbolPos(c)
  }

  lemma TablePositions()
    ensures forall i :: 0 <= i < 92 ==> TablePos(TableChar(i)) == i
  {
    DigitsCodes();
    LowerCodes();
    UpperCodes();
    SymbolsPositions();
    SymbolsOutsideRanges();
  }

  /**
   * Both tables are usable odometer alphabets: 92 and 72 characters without
   * repetition, and the partial table is a prefix of the full one.
   */
  lemma TablesValid()
    ensures |FullAlphabet()| == 92 && ValidAlphabet(FullAlphabet())
    ensures |PartAlphabet()| == 72 && ValidAlphabet(PartAlphabet())
    ensures PartAlphabet() == FullAlphabet()[..72]
  {
    TablePositions();
    InverseDistinct(FullAlphabet(), TablePos);
    InverseDistinct(PartAlphabet(), TablePos);
  }

  /** Every brute-force mode has a usable alphabet. */
  lemma AlphabetValid(h: Heuristic)
    requires h != Full
    ensures ValidAlphabet(GetAlphabet(h).value)
  {
    TablesValid();
  }

  /** The partial table's enumeration order agrees with the full one's on its characters. */
  lemma PartialIndicesAgree(c: char)
    requires c in PartAlphabet()
    ensures c in FullAlphabet() && IndexOf(FullAlphabet(), c) == IndexOf(PartAlphabet(), c)
  {
    TablesValid();
    var k := IndexOf(PartAlphabet(), c);
    assert FullAlphabet()[k] == c;
    IndexOfAt(FullAlphabet(), k);
  }
}

/**
 * The odometer enumeration behind the brute-force task, over an arbitrary
 * ordered alphabet. A candidate of length L is a base-|A| numeral whose digits
 * are alphabet positions, most significant digit leftmost. The order of the
 * digits is the order of the alphabet table, never the characters' code points.
 */
module Enumeration {
  import opened Wrappers
  import opened Strings

  /** No character occurs twice: every position is the first occurrence of its character. */
  predicate Distinct(A: seq<char>) {
    forall k {:trigger IndexOf(A, A[k])} :: 0 <= k < |A| ==> IndexOf(A, A[k]) == k
  }

  /** A usable alphabet: non-empty and without repeated characters. */
  predicate ValidAlphabet(A: seq<char>) {
    |A| > 0 && Distinct(A)
  }

  /** Every character of `s` belongs to the alphabet. */
  predicate Over(s: string, A: seq<char>) {
    forall i :: 0 <= i < |s| ==> s[i] in A
  }

  function Last(A: seq<char>): char
    requires |A| > 0
  {
    A[|A| - 1]
  }

  /** Position of the first occurrence of `c` (QVector::indexOf). */
  function IndexOf(A: seq<char>, c: char): (k: nat)
    requires c in A
    ensures k < |A| && A[k] == c
  {
    if A[0] == c then 0 else 1 + IndexOf(A[1..], c)
  }

  /** IndexOf finds the first occurrence. */
  lemma {:induction false} IndexOfFirst(A: seq<char>, c: char)
    requires c in A
    ensures forall j :: 0 <= j < IndexOf(A, c) ==> A[j] != c
  {
    if A[0] != c {
      IndexOfFirst(A[1..], c);
      assert forall j :: 1 <= j < |A| ==> A[j] == A[1..][j - 1];
    }
  }

  lemma IndexOfAt(A: seq<char>, k: nat)
    requires Distinct(A) && k < |A|
    ensures IndexOf(A, A[k]) == k
  {
  }

  /** Distinct is the pairwise inequality of positions. */
  lemma DistinctPairwise(A: seq<char>)
    ensures Distinct(A) <==> forall i, j :: 0 <= i < j < |A| ==> A[i] != A[j]
  {
    if Distinct(A) {
      forall i, j | 0 <= i < j < |A| ensures A[i] != A[j] {
        IndexOfAt(A, i);
        IndexOfAt(A, j);
      }
    }
    if forall i, j :: 0 <= i < j < |A| ==> A[i] != A[j] {
      forall k | 0 <= k < |A| ensures IndexOf(A, A[k]) == k {
        var m := IndexOf(A, A[k]);
        assert A[m] == A[k];
      }
    }
  }

  function Pow(b: nat, e: nat): nat {
    if e == 0 then 1 else Pow(b, e - 1) * b
  }

  /** The numeric value of `s` read as a base-|A| numeral. */
  function Rank(A: seq<char>, s: string): nat
    requires Over(s, A)
    decreases |s|
  {
    if |s| == 0 then 0 else Rank(A, s[..|s| - 1]) * |A| + IndexOf(A, s[|s| - 1])
  }

  lemma {:induction false} MulLe(x: nat, y: nat, n: nat)
    requires x <= y
    ensures x * n <= y * n
    decreases n
  {
    if n > 0 {
      MulLe(x, y, n - 1);
      assert x * n == x * (n - 1) + x;
      assert y * n == y * (n - 1) + y;
    }
  }

  lemma MulSucc(r: nat, n: nat)
    ensures (r + 1) * n == r * n + n
  {
  }

  lemma MulStep(a: nat, b: nat, n: nat)
    requires a < b
    ensures a * n + n <= b * n
  {
    MulLe(a + 1, b, n);
    assert (a + 1) * n == a * n + n;
  }

  /** Comparing two-digit numerals `a d` and `b e` in base n. */
  lemma DigitCompare(a: nat, d: nat, b: nat, e: nat, n: nat)
    requires d < n && e < n
    ensures a * n + d < b * n + e <==> a < b || (a == b && d < e)
    ensures a * n + d == b * n + e <==> a == b && d == e
  {
    if a < b { MulStep(a, b, n); }
    if b < a { MulStep(b, a, n); }
  }

  /** A numeral of length m stays below |A|^m. */
  lemma {:induction false} RankBound(A: seq<char>, s: string)
    requires |A| > 0 && Over(s, A)
    ensures Rank(A, s) < Pow(|A|, |s|)
    decreases |s|
  {
    if |s| > 0 {
      var init := s[..|s| - 1];
      var r, d, P := Rank(A, init), IndexOf(A, s[|s| - 1]), Pow(|A|, |init|);
      RankBound(A, init);
      MulStep(r, P, |A|);
      assert Rank(A, s) == r * |A| + d;
      assert Pow(|A|, |s|) == P * |A|;
    }
  }

  /** The first string of length n: all first characters, which has value 0. */
  lemma {:induction false} RankOfFirst(A: seq<char>, n: nat)
    requires |A| > 0
    ensures Over(Repeat(A[0], n), A) && Rank(A, Repeat(A[0], n)) == 0
    decreases n
  {
    if n > 0 {
      RankOfFirst(A, n - 1);
      assert Repeat(A[0], n)[..n - 1] == Repeat(A[0], n - 1);
    }
  }

  /** The last string: all last characters, which has the greatest value. */
  lemma {:induction false} RankOfLast(A: seq<char>, s: string)
    requires ValidAlphabet(A) && Over(s, A)
    requires forall i :: 0 <= i < |s| ==> s[i] == Last(A)
    ensures Rank(A, s) == Pow(|A|, |s|) - 1
    decreases |s|
  {
    if |s| > 0 {
      var init := s[..|s| - 1];
      RankOfLast(A, init);
      IndexOfAt(A, |A| - 1);
      assert Rank(A, s) == (Pow(|A|, |init|) - 1) * |A| + |A| - 1;
    }
  }

  /** Two numerals of the same length with the same value are the same string. */
  lemma {:induction false} RankInjective(A: seq<char>, s: string, t: string)
    requires Over(s, A) && Over(t, A) && |s| == |t|
    requires Rank(A, s) == Rank(A, t)
    ensures s == t
    decreases |s|
  {
    if |s| > 0 {
      var n := |s| - 1;
      RankSnocCompare(A, s, t);
      RankInjective(A, s[..n], t[..n]);
      assert s == s[..n] + [s[n]] && t == t[..n] + [t[n]];
    }
  }

  /**
   * The successor numeral, or None when `s` is the greatest string of its
   * length: the last digit is incremented when it can be, otherwise it wraps
   * to the first character and the carry moves one position to the left.
   */
  function Succ(A: seq<char>, s: string): (r: Option<string>)
    requires |A| > 0 && Over(s, A)
    ensures r.Some? ==> |r.value| == |s| && Over(r.value, A)
    decreases |s|
  {
    if |s| == 0 then None
    else
      var init, last := s[..|s| - 1], s[|s| - 1];
      if last != Last(A) then Some(init + [A[IndexOf(A, last) + 1]])
      else match Succ(A, init)
        case None => None
        case Some(p) => Some(p + [A[0]])
  }

  /**
   * The carry position: the rightmost position whose character is not the last
   * one of the alphabet, or -1 when there is none.
   */
  function CarryPos(A: seq<char>, s: string): (p: int)
    requires |A| > 0
    ensures -1 <= p < |s|
    ensures p >= 0 ==> s[p] != Last(A)
    ensures forall i :: p < i < |s| ==> s[i] == Last(A)
    decreases |s|
  {
    if |s| == 0 then -1
    else if s[|s| - 1] != Last(A) then |s| - 1
    else CarryPos(A, s[..|s| - 1])
  }

  /** The carry position is the only position satisfying its defining properties. */
  lemma {:induction false} CarryPosUnique(A: seq<char>, s: string, p: int)
    requires |A| > 0 && -1 <= p < |s|
    requires p >= 0 ==> s[p] != Last(A)
    requires forall i :: p < i < |s| ==> s[i] == Last(A)
    ensures CarryPos(A, s) == p
    decreases |s|
  {
    if |s| > 0 && p < |s| - 1 {
      CarryPosUnique(A, s[..|s| - 1], p);
    }
  }

  lemma {:induction false} SuccAllLast(A: seq<char>, s: string)
    requires |A| > 0 && Over(s, A)
    requires forall i :: 0 <= i < |s| ==> s[i] == Last(A)
    ensures Succ(A, s) == None
    decreases |s|
  {
    if |s| > 0 {
      SuccAllLast(A, s[..|s| - 1]);
    }
  }

  lemma {:induction false} SuccAtCarry(A: seq<char>, s: string, p: nat)
    requires |A| > 0 && Over(s, A)
    requires p < |s| && s[p] != Last(A)
    requires forall i :: p < i < |s| ==> s[i] == Last(A)
    ensures IndexOf(A, s[p]) + 1 < |A|
    ensures Succ(A, s) == Some(s[..p] + [A[IndexOf(A, s[p]) + 1]] + Repeat(A[0], |s| - 1 - p))
    decreases |s|
  {
    var init := s[..|s| - 1];
    var x := A[IndexOf(A, s[p]) + 1];
    if p < |s| - 1 {
      assert s[|s| - 1] == Last(A);
      SuccAtCarry(A, init, p);
      assert init[..p] == s[..p];
      RepeatSnoc(A[0], |init| - 1 - p);
      calc {
        Succ(A, s).value;
        Succ(A, init).value + [A[0]];
        s[..p] + [x] + Repeat(A[0], |init| - 1 - p) + [A[0]];
        s[..p] + [x] + (Repeat(A[0], |init| - 1 - p) + [A[0]]);
      }
    } else {
      assert s[|s| - 1] != Last(A);
      assert Repeat(A[0], |s| - 1 - p) == [];
      assert s[..p] + [x] + Repeat(A[0], |s| - 1 - p) == init + [x];
      assert Succ(A, s).value == init + [x];
    }
  }

  /**
   * The odometer step: the successor exists exactly when some character is not
   * the alphabet's last; it keeps the positions left of the carry position,
   * advances the carry position by one alphabet index and resets every
   * position to its right to the alphabet's first character.
   */
  lemma Odometer(A: seq<char>, s: string)
    requires |A| > 0 && Over(s, A)
    ensures var p := CarryPos(A, s);
      p >= 0 ==>
        && IndexOf(A, s[p]) + 1 < |A|
        && Succ(A, s) == Some(s[..p] + [A[IndexOf(A, s[p]) + 1]] + Repeat(A[0], |s| - 1 - p))
  {
    var p := CarryPos(A, s);
    if p >= 0 {
      SuccAtCarry(A, s, p);
    }
  }

  /** The successor exists exactly when some character is not the alphabet's last. */
  lemma OdometerEnd(A: seq<char>, s: string)
    requires |A| > 0 && Over(s, A)
    ensures Succ(A, s) == None <==> forall i :: 0 <= i < |s| ==> s[i] == Last(A)
  {
    var p := CarryPos(A, s);
    if p >= 0 {
      SuccAtCarry(A, s, p);
      assert s[p] != Last(A);
    } else {
      SuccAllLast(A, s);
    }
  }


  /** Rank of a numeral given by its leading part and its last character. */
  lemma RankSnoc(A: seq<char>, init: string, c: char)
    requires Over(init, A) && c in A
    ensures Over(init + [c], A)
    ensures Rank(A, init + [c]) == Rank(A, init) * |A| + IndexOf(A, c)
  {
    assert (init + [c])[..|init|] == init;
  }

  /** The successor's value is one more than the value of `s`. */
  lemma {:induction false} SuccRank(A: seq<char>, s: string)
    requires ValidAlphabet(A) && Over(s, A) && Succ(A, s).Some?
    ensures Rank(A, Succ(A, s).value) == Rank(A, s) + 1
    decreases |s|
  {
    var n, init, last := |A|, s[..|s| - 1], s[|s| - 1];
    assert s == init + [last];
    RankSnoc(A, init, last);
    var r := Rank(A, init);
    if last != Last(A) {
      var i := IndexOf(A, last);
      IndexOfAt(A, i + 1);
      RankSnoc(A, init, A[i + 1]);
    } else {
      var p := Succ(A, init).value;
      assert Succ(A, s).value == p + [A[0]];
      SuccRank(A, init);
      IndexOfAt(A, n - 1);
      assert Rank(A, s) == r * n + (n - 1);
      RankSnoc(A, p, A[0]);
      assert Rank(A, Succ(A, s).value) == (r + 1) * n;
      MulSucc(r, n);
    }
  }

  /**
   * Every string from `s` onwards, in enumeration order, ending with the
   * greatest string of that length.
   */
  function Iterate(A: seq<char>, s: string): (r: seq<string>)
    requires ValidAlphabet(A) && Over(s, A)
    ensures |r| >= 1 && r[0] == s
    decreases Pow(|A|, |s|) - Rank(A, s)
  {
    match Succ(A, s)
    case None => [s]
    case Some(t) =>
      SuccRank(A, s);
      RankBound(A, t);
      [s] + Iterate(A, t)
  }

  /** The enumeration from `s` has |A|^L - Rank(s) members. */
  lemma {:induction false} IterateLength(A: seq<char>, s: string)
    requires ValidAlphabet(A) && Over(s, A)
    ensures |Iterate(A, s)| == Pow(|A|, |s|) - Rank(A, s)
    decreases Pow(|A|, |s|) - Rank(A, s)
  {
    RankBound(A, s);
    match Succ(A, s)
    case None =>
      Odometer(A, s);
      OdometerEnd(A, s);
      RankOfLast(A, s);
    case Some(t) =>
      SuccRank(A, s);
      RankBound(A, t);
      IterateLength(A, t);
  }

  /** The k-th member of the enumeration from `s` has the length of `s` and value Rank(s) + k. */
  lemma {:induction false} IterateRanks(A: seq<char>, s: string)
    requires ValidAlphabet(A) && Over(s, A)
    ensures forall k :: 0 <= k < |Iterate(A, s)| ==>
      |Iterate(A, s)[k]| == |s| && Over(Iterate(A, s)[k], A) && Rank(A, Iterate(A, s)[k]) == Rank(A, s) + k
    decreases Pow(|A|, |s|) - Rank(A, s)
  {
    match Succ(A, s)
    case None =>
    case Some(t) =>
      SuccRank(A, s);
      RankBound(A, t);
      IterateRanks(A, t);
      var r, r' := Iterate(A, s), Iterate(A, t);
      assert r == [s] + r';
      forall k | 0 < k < |r|
        ensures |r[k]| == |s| && Over(r[k], A) && Rank(A, r[k]) == Rank(A, s) + k
      {
        assert r[k] == r'[k - 1];
      }
  }

  /** Neighbours in the enumeration are successors. */
  lemma {:induction false} IterateSteps(A: seq<char>, s: string)
    requires ValidAlphabet(A) && Over(s, A)
    ensures forall k :: 0 <= k < |Iterate(A, s)| - 1 ==>
      Over(Iterate(A, s)[k], A) && Succ(A, Iterate(A, s)[k]) == Some(Iterate(A, s)[k + 1])
    decreases |Iterate(A, s)|
  {
    match Succ(A, s)
    case None =>
    case Some(t) =>
      var r, r' := Iterate(A, s), Iterate(A, t);
      assert r == [s] + r';
      IterateSteps(A, t);
      forall k | 0 <= k < |r| - 1
        ensures Over(r[k], A) && Succ(A, r[k]) == Some(r[k + 1])
      {
        if k == 0 {
          assert r[0] == s && r[1] == r'[0] == t;
        } else {
          assert r[k] == r'[k - 1] && r[k + 1] == r'[k];
        }
      }
  }

  /** The enumeration ends with a string that has no successor. */
  lemma {:induction false} IterateEnd(A: seq<char>, s: string)
    requires ValidAlphabet(A) && Over(s, A)
    ensures var r := Iterate(A, s);
      Over(r[|r| - 1], A) && Succ(A, r[|r| - 1]) == None
    decreases |Iterate(A, s)|
  {
    match Succ(A, s)
    case None =>
    case Some(t) =>
      var r, r' := Iterate(A, s), Iterate(A, t);
      assert r == [s] + r';
      IterateEnd(A, t);
      assert r[|r| - 1] == r'[|r'| - 1];
  }

  /** Restarting the enumeration at its k-th member visits exactly the rest of it. */
  lemma {:induction false} IterateSuffix(A: seq<char>, s: string, k: nat)
    requires ValidAlphabet(A) && Over(s, A)
    requires k < |Iterate(A, s)|
    ensures Over(Iterate(A, s)[k], A)
    ensures Iterate(A, s)[k..] == Iterate(A, Iterate(A, s)[k])
    decreases k
  {
    IterateRanks(A, s);
    if k > 0 {
      match Succ(A, s)
      case None =>
      case Some(t) =>
        var r := Iterate(A, s);
        assert r == [s] + Iterate(A, t);
        IterateSuffix(A, t, k - 1);
        assert r[k..] == Iterate(A, t)[k - 1..];
    }
  }

  /**
   * `s` comes before `t` in the lexicographic order given by alphabet indices:
   * they agree up to some position, where `s` has the smaller index.
   */
  predicate LexLess(A: seq<char>, s: string, t: string)
    requires Over(s, A) && Over(t, A)
  {
    |s| == |t| && exists p :: 0 <= p < |s| && s[..p] == t[..p] && IndexOf(A, s[p]) < IndexOf(A, t[p])
  }

  /** Index-lexicographic order decided by the leading parts, or by the last characters on a tie. */
  lemma LexLessSnoc(A: seq<char>, s: string, t: string)
    requires Over(s, A) && Over(t, A) && |s| == |t| > 0
    ensures var n := |s| - 1;
      LexLess(A, s, t) <==>
        LexLess(A, s[..n], t[..n]) || (s[..n] == t[..n] && IndexOf(A, s[n]) < IndexOf(A, t[n]))
  {
    var n := |s| - 1;
    if LexLess(A, s, t) {
      LexLessSnocDown(A, s, t);
    }
    if LexLess(A, s[..n], t[..n]) || (s[..n] == t[..n] && IndexOf(A, s[n]) < IndexOf(A, t[n])) {
      LexLessSnocUp(A, s, t);
    }
  }

  lemma LexLessSnocDown(A: seq<char>, s: string, t: string)
    requires Over(s, A) && Over(t, A) && |s| == |t| > 0 && LexLess(A, s, t)
    ensures var n := |s| - 1;
      LexLess(A, s[..n], t[..n]) || (s[..n] == t[..n] && IndexOf(A, s[n]) < IndexOf(A, t[n]))
  {
    var n := |s| - 1;
    var s', t' := s[..n], t[..n];
    var p :| 0 <= p < |s| && s[..p] == t[..p] && IndexOf(A, s[p]) < IndexOf(A, t[p]);
    if p < n {
      assert s'[..p] == s[..p] && t'[..p] == t[..p];
      assert s'[p] == s[p] && t'[p] == t[p];
      assert LexLess(A, s', t');
    }
  }

  lemma LexLessSnocUp(A: seq<char>, s: string, t: string)
    requires Over(s, A) && Over(t, A) && |s| == |t| > 0
    requires var n := |s| - 1;
      LexLess(A, s[..n], t[..n]) || (s[..n] == t[..n] && IndexOf(A, s[n]) < IndexOf(A, t[n]))
    ensures LexLess(A, s, t)
  {
    var n := |s| - 1;
    var s', t' := s[..n], t[..n];
    if LexLess(A, s', t') {
      var p :| 0 <= p < n && s'[..p] == t'[..p] && IndexOf(A, s'[p]) < IndexOf(A, t'[p]);
      assert s'[..p] == s[..p] && t'[..p] == t[..p];
      assert s'[p] == s[p] && t'[p] == t[p];
    } else {
      assert 0 <= n < |s| && s[..n] == t[..n] && IndexOf(A, s[n]) < IndexOf(A, t[n]);
    }
  }

  /** Comparing the values of two numerals of one length by their leading parts and last digits. */
  lemma RankSnocCompare(A: seq<char>, s: string, t: string)
    requires Over(s, A) && Over(t, A) && |s| == |t| > 0
    ensures var n := |s| - 1;
      var a, b := Rank(A, s[..n]), Rank(A, t[..n]);
      && (Rank(A, s) < Rank(A, t) <==> a < b || (a == b && IndexOf(A, s[n]) < IndexOf(A, t[n])))
      && (Rank(A, s) == Rank(A, t) <==> a == b && s[n] == t[n])
  {
    var n := |s| - 1;
    var a, d, b, e := Rank(A, s[..n]), IndexOf(A, s[n]), Rank(A, t[..n]), IndexOf(A, t[n]);
    assert Rank(A, s) == a * |A| + d;
    assert Rank(A, t) == b * |A| + e;
    DigitCompare(a, d, b, e, |A|);
  }

  /** For strings of one length, index-lexicographic order is the order of their values. */
  lemma {:induction false} LexLessIffRankLess(A: seq<char>, s: string, t: string)
    requires Over(s, A) && Over(t, A) && |s| == |t|
    ensures LexLess(A, s, t) <==> Rank(A, s) < Rank(A, t)
    decreases |s|
  {
    if |s| > 0 {
      var n := |s| - 1;
      var s', t' := s[..n], t[..n];
      LexLessIffRankLess(A, s', t');
      LexLessSnoc(A, s, t);
      RankSnocCompare(A, s, t);
      if Rank(A, s') == Rank(A, t') {
        RankInjective(A, s', t');
      }
    }
  }

  /**
   * The enumeration from `s` holds exactly the strings of the length of `s`
   * over the alphabet that do not come before `s`.
   */
  lemma IterateMembers(A: seq<char>, s: string)
    requires ValidAlphabet(A) && Over(s, A)
    ensures forall t: string :: t in Iterate(A, s) <==> |t| == |s| && Over(t, A) && !LexLess(A, t, s)
  {
    var r := Iterate(A, s);
    IterateRanks(A, s);
    IterateLength(A, s);
    forall t: string ensures t in r <==> |t| == |s| && Over(t, A) && !LexLess(A, t, s) {
      if t in r {
        var k :| 0 <= k < |r| && r[k] == t;
        LexLessIffRankLess(A, t, s);
      }
      if |t| == |s| && Over(t, A) && !LexLess(A, t, s) {
        LexLessIffRankLess(A, t, s);
        RankBound(A, t);
        var k := Rank(A, t) - Rank(A, s);
        RankInjective(A, t, r[k]);
      }
    }
  }

  /** The enumeration from `s` is the suffix of the complete enumeration that starts at `s`. */
  lemma IterateFrom(A: seq<char>, s: string)
    requires ValidAlphabet(A) && Over(s, A)
    ensures Over(Repeat(A[0], |s|), A)
    ensures var e := Iterate(A, Repeat(A[0], |s|));
      Rank(A, s) < |e| && Iterate(A, s) == e[Rank(A, s)..]
  {
    var first := Repeat(A[0], |s|);
    RankOfFirst(A, |s|);
    var e := Iterate(A, first);
    IterateLength(A, first);
    IterateRanks(A, first);
    RankBound(A, s);
    RankInjective(A, s, e[Rank(A, s)]);
    IterateSuffix(A, first, Rank(A, s));
  }

  /**
   * The complete enumeration of length L, from the first character repeated L
   * times: |A|^L members, the k-th of value k, pairwise distinct, in strictly
   * increasing index-lexicographic order, and holding exactly the strings of
   * length L over the alphabet.
   */
  lemma EnumerationComplete(A: seq<char>, L: nat)
    requires ValidAlphabet(A)
    ensures Over(Repeat(A[0], L), A)
    ensures var e := Iterate(A, Repeat(A[0], L));
      && |e| == Pow(|A|, L)
      && (forall k :: 0 <= k < |e| ==> |e[k]| == L && Over(e[k], A) && Rank(A, e[k]) == k)
      && (forall i, j :: 0 <= i < j < |e| ==> e[i] != e[j] && LexLess(A, e[i], e[j]))
      && (forall t: string :: t in e <==> |t| == L && Over(t, A))
  {
    RankOfFirst(A, L);
    var e := Iterate(A, Repeat(A[0], L));
    IterateLength(A, Repeat(A[0], L));
    IterateRanks(A, Repeat(A[0], L));
    forall i, j | 0 <= i < j < |e| ensures e[i] != e[j] && LexLess(A, e[i], e[j]) {
      LexLessIffRankLess(A, e[i], e[j]);
    }
    forall t: string ensures t in e <==> |t| == L && Over(t, A) {
      if |t| == L && Over(t, A) {
        RankBound(A, t);
        RankInjective(A, t, e[Rank(A, t)]);
      }
    }
  }
}

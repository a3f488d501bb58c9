/**
 * The GSTIN check character (packages/shared/src/identity-validation.ts): a Luhn-style mod-36 sum
 * over any payload, and the fifteen-character number that carries it.
 */
module Gstin {
  import opened Common
  import opened Verhoeff

  predicate IsUpper(c: char) { 'A' <= c <= 'Z' }

  /** A character of the GSTIN alphabet, in either case. */
  predicate InAlphabet(c: char) { IsDigit(UpperChar(c)) || IsUpper(UpperChar(c)) }

  /** Digits then letters: a character's place in the alphabet. */
  function CodePoint(c: char): (v: int)
    requires InAlphabet(c)
    ensures 0 <= v < 36
  {
    if IsDigit(UpperChar(c)) then UpperChar(c) as int - '0' as int else UpperChar(c) as int - 'A' as int + 10
  }

  function AlphabetAt(v: int): (c: char)
    requires 0 <= v < 36
    ensures InAlphabet(c) && UpperChar(c) == c && CodePoint(c) == v
  {
    if v < 10 then ('0' as int + v) as char else ('A' as int + v - 10) as char
  }

  /** Two characters share a place exactly when they differ at most in case. */
  lemma CodePointIsUpper(c: char, d: char)
    requires InAlphabet(c) && InAlphabet(d)
    ensures CodePoint(c) == CodePoint(d) <==> UpperChar(c) == UpperChar(d)
  {
  }

  predicate InAlphabetAll(payload: string)
  {
    forall i :: 0 <= i < |payload| ==> InAlphabet(payload[i])
  }

  // ---- The sum over places ----

  type Place = v: int | 0 <= v < 36

  /** The two base-36 digits of a doubled value, added up. */
  function Folded(x: int): int
    requires 0 <= x < 72
  {
    x / 36 + x % 36
  }

  lemma FoldedValue(x: int)
    requires 0 <= x < 72
    ensures Folded(x) == if x < 36 then x else x - 35
  {
    if x >= 36 {
      assert x / 36 == 1;
    }
  }

  /** What a place adds: doubled and folded on even steps from the right, as it is on odd ones. */
  function Weighted(k: nat, v: Place): int
  {
    if k % 2 == 0 then Folded(2 * v) else Folded(v)
  }

  /** The sum of the last n places. */
  function Sum(places: seq<Place>, n: nat): int
    requires n <= |places|
  {
    if n == 0 then 0 else Sum(places, n - 1) + Weighted(n - 1, places[|places| - n])
  }

  /** What is still missing from a sum to be divisible by 36. */
  function Complement(sum: int): (v: int)
    ensures 0 <= v < 36 && (sum + v) % 36 == 0
  {
    (36 - sum % 36) % 36
  }

  /** Sums that differ by delta after m places still do after the same further ones. */
  lemma {:induction false} DeltaStays(v: seq<Place>, w: seq<Place>, m: nat, n: nat, delta: int)
    requires |v| == |w| && m <= n <= |v|
    requires forall i :: 0 <= i < |v| - m ==> v[i] == w[i]
    requires Sum(w, m) == Sum(v, m) + delta
    ensures Sum(w, n) == Sum(v, n) + delta
  {
    if m < n {
      DeltaStays(v, w, m, n - 1, delta);
    }
  }

  lemma {:induction false} SameEnding(v: seq<Place>, w: seq<Place>, n: nat)
    requires |v| == |w| && n <= |v|
    requires forall i :: |v| - n <= i < |v| ==> v[i] == w[i]
    ensures Sum(w, n) == Sum(v, n)
  {
    if n > 0 {
      SameEnding(v, w, n - 1);
    }
  }

  lemma Congruent(s: int, t: int)
    ensures s % 36 == t % 36 <==> (s - t) % 36 == 0
  {
    var d := s - t;
    assert s - s % 36 == 36 * (s / 36) && t - t % 36 == 36 * (t / 36) && d - d % 36 == 36 * (d / 36);
    var q := s / 36 - t / 36 - d / 36;
    assert 36 * q == d % 36 - (s % 36 - t % 36);
  }

  lemma SameComplement(s: int, t: int)
    ensures Complement(s) == Complement(t) <==> (s - t) % 36 == 0
  {
    Congruent(s, t);
    assert Complement(s) == (if s % 36 == 0 then 0 else 36 - s % 36);
    assert Complement(t) == (if t % 36 == 0 then 0 else 36 - t % 36);
  }

  lemma SmallMultiple(d: int)
    requires -72 < d < 72
    ensures d % 36 == 0 <==> d == -36 || d == 0 || d == 36
  {
  }

  /** Different places weigh differently modulo 36, at any step. */
  lemma WeightedApart(k: nat, a: Place, b: Place)
    ensures (Weighted(k, b) - Weighted(k, a)) % 36 == 0 <==> a == b
  {
    FoldedValue(2 * a);
    FoldedValue(2 * b);
    FoldedValue(a);
    FoldedValue(b);
    SmallMultiple(Weighted(k, b) - Weighted(k, a));
  }

  /** What crossing two places over at steps k and k + 1 adds to the sum. */
  function Crossing(k: nat, a: Place, b: Place): int
  {
    Weighted(k, a) + Weighted(k + 1, b) - Weighted(k, b) - Weighted(k + 1, a)
  }

  /** Crossing over leaves the sum alone only for equal places and for the first with the last. */
  lemma CrossedOver(k: nat, a: Place, b: Place)
    ensures Crossing(k, a, b) % 36 == 0 <==> a == b || (a == 0 && b == 35) || (a == 35 && b == 0)
  {
    FoldedValue(2 * a);
    FoldedValue(2 * b);
    FoldedValue(a);
    FoldedValue(b);
    SmallMultiple(Crossing(k, a, b));
  }

  lemma {:induction false} PlaceChange(v: seq<Place>, w: seq<Place>, p: nat)
    requires |v| == |w| && p < |v|
    requires forall i :: 0 <= i < |v| && i != p ==> v[i] == w[i]
    ensures Complement(Sum(v, |v|)) == Complement(Sum(w, |w|)) <==> v[p] == w[p]
  {
    var k := |v| - 1 - p;
    var delta := Weighted(k, w[p]) - Weighted(k, v[p]);
    SameEnding(v, w, k);
    DeltaStays(v, w, k + 1, |v|, delta);
    WeightedApart(k, v[p], w[p]);
    SameComplement(Sum(w, |w|), Sum(v, |v|));
  }

  lemma {:induction false} PlaceSwap(v: seq<Place>, w: seq<Place>, p: nat)
    requires |v| == |w| && p + 1 < |v|
    requires w[p] == v[p + 1] && w[p + 1] == v[p]
    requires forall i :: 0 <= i < |v| && i != p && i != p + 1 ==> v[i] == w[i]
    ensures Complement(Sum(v, |v|)) == Complement(Sum(w, |w|)) <==>
      v[p] == w[p] || (v[p] == 0 && w[p] == 35) || (v[p] == 35 && w[p] == 0)
  {
    var k := |v| - 2 - p;
    SameEnding(v, w, k);
    assert Sum(v, k + 2) == Sum(v, k) + Weighted(k, v[p + 1]) + Weighted(k + 1, v[p]);
    assert Sum(w, k + 2) == Sum(w, k) + Weighted(k, v[p]) + Weighted(k + 1, v[p + 1]);
    DeltaStays(v, w, k + 2, |v|, Crossing(k, v[p], w[p]));
    CrossedOver(k, v[p], w[p]);
    SameComplement(Sum(w, |w|), Sum(v, |v|));
  }

  // ---- The check character of a string ----

  function Places(payload: string): (places: seq<Place>)
    requires InAlphabetAll(payload)
    ensures |places| == |payload|
    ensures forall i :: 0 <= i < |places| ==> places[i] == CodePoint(payload[i])
  {
    seq(|payload|, i requires 0 <= i < |payload| => CodePoint(payload[i]))
  }

  function CheckChar(payload: string): char
    requires InAlphabetAll(payload)
  {
    AlphabetAt(Complement(Sum(Places(payload), |payload|)))
  }

  /** The check character, computed right to left; refused outside the alphabet. */
  method GstinCheckDigit(payload: string) returns (check: Result<char>)
    ensures check.Ok? <==> InAlphabetAll(payload)
    ensures check.Ok? ==> check.value == CheckChar(payload)
  {
    var factor, sum := 2, 0;
    var n := |payload|;
    for i := n downto 0
      invariant forall j :: i <= j < n ==> InAlphabet(payload[j])
      invariant factor == if (n - i) % 2 == 0 then 2 else 1
      invariant InAlphabetAll(payload) ==> sum == Sum(Places(payload), n - i)
    {
      if !InAlphabet(payload[i]) {
        return Err("gstinCheckDigit needs GSTIN alphabet characters (0-9, A-Z) only");
      }
      var doubled := factor * CodePoint(payload[i]);
      sum := sum + (doubled / 36 + doubled % 36);
      factor := if factor == 2 then 1 else 2;
    }
    check := Ok(AlphabetAt((36 - sum % 36) % 36));
  }

  /** Every change of one character, other than its case, changes the check character. */
  lemma SubstitutionShows(v: string, p: nat, c: char)
    requires InAlphabetAll(v) && p < |v| && InAlphabet(c)
    ensures InAlphabetAll(v[p := c])
    ensures CheckChar(v[p := c]) == CheckChar(v) <==> UpperChar(c) == UpperChar(v[p])
  {
    var w := v[p := c];
    PlaceChange(Places(v), Places(w), p);
    CodePointIsUpper(c, v[p]);
  }

  /** The one pair of characters whose swap the sum cannot see. */
  predicate ZeroAndZ(c: char, d: char)
  {
    (c == '0' && UpperChar(d) == 'Z') || (UpperChar(c) == 'Z' && d == '0')
  }

  /** An adjacent swap goes unnoticed only for equal characters and for '0' with 'Z'. */
  lemma SwapShows(v: string, p: nat)
    requires InAlphabetAll(v) && p + 1 < |v|
    ensures InAlphabetAll(Swapped(v, p))
    ensures CheckChar(Swapped(v, p)) == CheckChar(v) <==>
      UpperChar(v[p]) == UpperChar(v[p + 1]) || ZeroAndZ(v[p], v[p + 1])
  {
    var w := Swapped(v, p);
    PlaceSwap(Places(v), Places(w), p);
    CodePointIsUpper(v[p], v[p + 1]);
  }

  // ---- What each position contributes ----

  const ALPHABET := "0123456789ABCDEFGHIJKLMNOPQRSTUVWXYZ"

  lemma AlphabetInOrder(v: int)
    requires 0 <= v < 36
    ensures |ALPHABET| == 36 && AlphabetAt(v) == ALPHABET[v]
  {
  }

  /** The characters accepted are those of the alphabet, in either case. */
  lemma AlphabetExactly(c: char)
    ensures InAlphabet(c) <==> exists v :: 0 <= v < |ALPHABET| && ALPHABET[v] == UpperChar(c)
  {
    if InAlphabet(c) {
      AlphabetInOrder(CodePoint(c));
    }
    if exists v :: 0 <= v < |ALPHABET| && ALPHABET[v] == UpperChar(c) {
      var v :| 0 <= v < |ALPHABET| && ALPHABET[v] == UpperChar(c);
      AlphabetInOrder(v);
    }
  }

  /** Twice a place, carried back below 36. */
  function Twice(v: Place): int { if v < 18 then 2 * v else 2 * v - 35 }

  /** What a place stands for, k positions from the right: every second one counts twice, the last included. */
  function Contribution(k: nat, v: Place): int { if k % 2 == 0 then Twice(v) else v }

  lemma WeightedIsContribution(k: nat, v: Place)
    ensures Weighted(k, v) == Contribution(k, v)
  {
    FoldedValue(v);
    FoldedValue(2 * v);
  }

  /** The sum after one place is changed. */
  lemma {:induction false} SumAfterChange(v: seq<Place>, w: seq<Place>, p: nat)
    requires |v| == |w| && p < |v|
    requires forall i :: 0 <= i < |v| && i != p ==> v[i] == w[i]
    ensures var k := |v| - 1 - p; Sum(w, |w|) == Sum(v, |v|) + Contribution(k, w[p]) - Contribution(k, v[p])
  {
    var k := |v| - 1 - p;
    SameEnding(v, w, k);
    WeightedIsContribution(k, v[p]);
    WeightedIsContribution(k, w[p]);
    DeltaStays(v, w, k + 1, |v|, Contribution(k, w[p]) - Contribution(k, v[p]));
  }

  lemma ComplementMoves(s: int, t: int)
    ensures (Complement(t) - Complement(s) - (s - t)) % 36 == 0
  {
    var a, b := s + Complement(s), t + Complement(t);
    assert a == 36 * (a / 36) && b == 36 * (b / 36);
    assert b - a == 36 * (b / 36 - a / 36);
  }

  /**
   * Changing one character moves the check character, modulo 36, back by what the new character
   * contributes more than the old: twice the difference of their places (carried back below 36) at
   * the last character and every second one before it, the plain difference in between.
   */
  lemma CheckMoves(v: string, p: nat, c: char)
    requires InAlphabetAll(v) && p < |v| && InAlphabet(c)
    ensures InAlphabetAll(v[p := c])
    ensures var k, x, y := |v| - 1 - p, CodePoint(v[p]), CodePoint(c);
      (CodePoint(CheckChar(v[p := c])) - CodePoint(CheckChar(v)) - (Contribution(k, x) - Contribution(k, y))) % 36 == 0
  {
    var w := v[p := c];
    SumAfterChange(Places(v), Places(w), p);
    ComplementMoves(Sum(Places(v), |v|), Sum(Places(w), |w|));
  }

  lemma {:induction false} SumOfZeros(v: seq<Place>, n: nat)
    requires n <= |v| && forall i :: 0 <= i < |v| ==> v[i] == 0
    ensures Sum(v, n) == 0
  {
    if n > 0 {
      SumOfZeros(v, n - 1);
    }
  }

  /** A payload of zeros has check character '0'; with `CheckMoves` this fixes every check character. */
  lemma ZerosCheckZero(v: string)
    requires forall i :: 0 <= i < |v| ==> v[i] == '0'
    ensures InAlphabetAll(v) && CheckChar(v) == '0'
  {
    SumOfZeros(Places(v), |v|);
  }

  // ---- The fifteen characters ----

  predicate IsLetter(c: char) { IsUpper(UpperChar(c)) }

  /** Two digits, a PAN, an entity character, the reserved Z and a check character, in any case. */
  predicate HasShape(s: string)
  {
    && |s| == 15
    && (forall i :: 0 <= i < 2 ==> IsDigit(s[i]))
    && (forall i :: 2 <= i < 7 ==> IsLetter(s[i]))
    && (forall i :: 7 <= i < 11 ==> IsDigit(s[i]))
    && IsLetter(s[11])
    && InAlphabet(s[12]) && s[12] != '0'
    && UpperChar(s[13]) == 'Z'
    && InAlphabet(s[14])
  }

  /** The pattern, position by position: 9 a digit, A a letter, X either, 1 either but not zero, Z itself. */
  const PATTERN := "99AAAAA9999A1ZX"

  predicate FitsPattern(p: char, c: char)
  {
    var u := UpperChar(c);
    if p == '9' then '0' <= u <= '9'
    else if p == 'A' then 'A' <= u <= 'Z'
    else if p == 'Z' then u == 'Z'
    else if p == '1' then '1' <= u <= '9' || 'A' <= u <= 'Z'
    else '0' <= u <= '9' || 'A' <= u <= 'Z'
  }

  lemma ShapeIsPattern(s: string)
    ensures HasShape(s) <==> |s| == |PATTERN| && forall i :: 0 <= i < |s| ==> FitsPattern(PATTERN[i], s[i])
  {
    if |s| == 15 {
      forall i | 0 <= i < 15 ensures HasShape(s) ==> FitsPattern(PATTERN[i], s[i]) {
        PatternAt(i);
      }
      if forall i :: 0 <= i < |s| ==> FitsPattern(PATTERN[i], s[i]) {
        PatternAt(11);
        PatternAt(12);
        PatternAt(13);
        PatternAt(14);
        forall i | 0 <= i < 2 ensures IsDigit(s[i]) { PatternAt(i); }
        forall i | 2 <= i < 7 ensures IsLetter(s[i]) { PatternAt(i); }
        forall i | 7 <= i < 11 ensures IsDigit(s[i]) { PatternAt(i); }
      }
    }
  }

  lemma PatternAt(i: nat)
    requires i < 15
    ensures |PATTERN| == 15 && PATTERN[i] ==
      if i < 2 then '9' else if i < 7 then 'A' else if i < 11 then '9' else if i == 11 then 'A'
      else if i == 12 then '1' else if i == 13 then 'Z' else 'X'
  {
  }

  lemma ShapeInAlphabet(s: string, p: nat)
    requires HasShape(s) && p < 15
    ensures InAlphabet(s[p])
  {
  }

  predicate IsValidGstin(s: string)
  {
    HasShape(s) && InAlphabetAll(s[..14]) && CheckChar(s[..14]) == UpperChar(s[14])
  }

  /** Every one-character change beyond case turns a valid GSTIN into an invalid one. */
  lemma GstinCatchesSubstitution(s: string, p: nat, c: char)
    requires IsValidGstin(s) && p < 15 && UpperChar(c) != UpperChar(s[p])
    ensures !IsValidGstin(s[p := c])
  {
    var t := s[p := c];
    if HasShape(t) {
      if p < 14 {
        assert t[p] == c;
        ShapeInAlphabet(t, p);
        SubstitutionShows(s[..14], p, c);
        assert t[..14] == s[..14][p := c];
      } else {
        assert t[..14] == s[..14];
      }
    }
  }

  /** Every swap of adjacent unequal characters does too: the shape never lets '0' meet 'Z'. */
  lemma GstinCatchesSwap(s: string, p: nat)
    requires IsValidGstin(s) && p < 14 && UpperChar(s[p]) != UpperChar(s[p + 1])
    ensures !IsValidGstin(Swapped(s, p))
  {
    var t := Swapped(s, p);
    if HasShape(t) {
      assert t[p] == s[p + 1] && t[p + 1] == s[p];
      if p < 13 {
        assert !ZeroAndZ(s[p], s[p + 1]);
        SwapShows(s[..14], p);
        assert t[..14] == Swapped(s[..14], p);
      }
    }
  }

  lemma SumStep(v: seq<Place>, n: nat, s: int, x: Place)
    requires n < |v| && Sum(v, n) == s && v[|v| - 1 - n] == x
    ensures Sum(v, n + 1) == s + Contribution(n, x)
  {
    WeightedIsContribution(n, x);
  }

  lemma {:induction false} SampleFirst(v: seq<Place>)
    requires v == [2, 7, 10, 10, 25, 15, 30, 0, 9, 3, 9, 15, 1, 35]
    ensures Sum(v, 5) == 81
  {
    SumStep(v, 0, 0, 35);
    SumStep(v, 1, 35, 1);
    SumStep(v, 2, 36, 15);
    SumStep(v, 3, 66, 9);
    SumStep(v, 4, 75, 3);
  }

  lemma {:induction false} SampleNext(v: seq<Place>)
    requires v == [2, 7, 10, 10, 25, 15, 30, 0, 9, 3, 9, 15, 1, 35] && Sum(v, 5) == 81
    ensures Sum(v, 10) == 175
  {
    SumStep(v, 5, 81, 9);
    SumStep(v, 6, 90, 0);
    SumStep(v, 7, 90, 30);
    SumStep(v, 8, 120, 15);
    SumStep(v, 9, 150, 25);
  }

  lemma {:induction false} SampleLast(v: seq<Place>)
    requires v == [2, 7, 10, 10, 25, 15, 30, 0, 9, 3, 9, 15, 1, 35] && Sum(v, 10) == 175
    ensures Sum(v, 14) == 221
  {
    SumStep(v, 10, 175, 10);
    SumStep(v, 11, 195, 10);
    SumStep(v, 12, 205, 7);
    SumStep(v, 13, 219, 2);
  }

  /** The places of the sample below add up to 221, which 31 brings to a multiple of 36. */
  lemma {:induction false} SampleSum(v: seq<Place>)
    requires v == [2, 7, 10, 10, 25, 15, 30, 0, 9, 3, 9, 15, 1, 35]
    ensures Complement(Sum(v, 14)) == 31
  {
    SampleFirst(v);
    SampleNext(v);
    SampleLast(v);
  }

  lemma SamplePlaces(s: string)
    requires s == "27AAPFU0939F1Z"
    ensures InAlphabetAll(s) && Places(s) == [2, 7, 10, 10, 25, 15, 30, 0, 9, 3, 9, 15, 1, 35]
  {
    assert s[0] == '2' && s[1] == '7' && s[2] == 'A' && s[3] == 'A' && s[4] == 'P' && s[5] == 'F' && s[6] == 'U';
    assert s[7] == '0' && s[8] == '9' && s[9] == '3' && s[10] == '9' && s[11] == 'F' && s[12] == '1' && s[13] == 'Z';
  }

  lemma SampleShape(s: string)
    requires s == "27AAPFU0939F1ZV"
    ensures HasShape(s) && s[..14] == "27AAPFU0939F1Z" && s[14] == 'V'
  {
  }

  /** The number the refusal message gives as an example is valid. */
  lemma SampleIsValid(s: string)
    requires s == "27AAPFU0939F1ZV"
    ensures IsValidGstin(s)
  {
    SampleShape(s);
    SamplePlaces(s[..14]);
    SampleSum(Places(s[..14]));
  }
}

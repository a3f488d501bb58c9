/**
 * The Verhoeff check digit Aadhaar numbers carry (packages/shared/src/identity-validation.ts).
 */
module Verhoeff {

  import opened Common

  const VERHOEFF_D: seq<seq<int>> := [
    [0, 1, 2, 3, 4, 5, 6, 7, 8, 9],
    [1, 2, 3, 4, 0, 6, 7, 8, 9, 5],
    [2, 3, 4, 0, 1, 7, 8, 9, 5, 6],
    [3, 4, 0, 1, 2, 8, 9, 5, 6, 7],
    [4, 0, 1, 2, 3, 9, 5, 6, 7, 8],
    [5, 9, 8, 7, 6, 0, 4, 3, 2, 1],
    [6, 5, 9, 8, 7, 1, 0, 4, 3, 2],
    [7, 6, 5, 9, 8, 2, 1, 0, 4, 3],
    [8, 7, 6, 5, 9, 3, 2, 1, 0, 4],
    [9, 8, 7, 6, 5, 4, 3, 2, 1, 0]
  ]

  const VERHOEFF_P: seq<seq<int>> := [
    [0, 1, 2, 3, 4, 5, 6, 7, 8, 9],
    [1, 5, 7, 6, 2, 8, 3, 0, 9, 4],
    [5, 8, 0, 3, 7, 9, 6, 1, 4, 2],
    [8, 9, 1, 6, 0, 4, 3, 5, 2, 7],
    [9, 4, 5, 3, 1, 2, 6, 8, 7, 0],
    [4, 2, 8, 6, 5, 7, 3, 9, 0, 1],
    [2, 7, 9, 3, 8, 0, 6, 4, 1, 5],
    [7, 0, 4, 6, 9, 1, 3, 2, 5, 8]
  ]

  const VERHOEFF_INV: seq<int> := [0, 4, 3, 2, 1, 5, 6, 7, 8, 9]

  type Digit = n: int | 0 <= n < 10

  // ---- The dihedral group behind the tables ----

  /** Brings -4..8 back into 0..4, modulo 5. */
  function Wrap(n: int): (r: int)
    requires -4 <= n <= 8
    ensures 0 <= r < 5
  {
    if n < 0 then n + 5 else if n >= 5 then n - 5 else n
  }

  /** The product in D5: 0-4 are rotations, 5-9 reflections. */
  function Mul(a: Digit, b: Digit): (c: Digit)
  {
    if a < 5 then
      if b < 5 then Wrap(a + b) else 5 + Wrap(a + (b - 5))
    else
      if b < 5 then 5 + Wrap(a - 5 - b) else Wrap(a - b)
  }

  function Inv(a: Digit): (c: Digit)
  {
    if a < 5 then Wrap(0 - a) else a
  }

  /** The digit permutation applied once per position. */
  function Sigma(x: Digit): Digit
  {
    if x == 0 then 1 else if x == 1 then 5 else if x == 2 then 7 else if x == 3 then 6 else if x == 4 then 2
    else if x == 5 then 8 else if x == 6 then 3 else if x == 7 then 0 else if x == 8 then 9 else 4
  }

  lemma TableDRotations(a: Digit, b: Digit)
    requires a < 5
    ensures |VERHOEFF_D| == 10 && |VERHOEFF_D[a]| == 10
    ensures VERHOEFF_D[a][b] == Mul(a, b)
  {
  }

  lemma TableD(a: Digit, b: Digit)
    ensures |VERHOEFF_D| == 10 && |VERHOEFF_D[a]| == 10
    ensures VERHOEFF_D[a][b] == Mul(a, b)
  {
    if a < 5 {
      TableDRotations(a, b);
    }
  }

  /** The permutation at a position: sigma applied that many times. */
  function Perm(position: nat, x: Digit): Digit
  {
    if position == 0 then x else Sigma(Perm(position - 1, x))
  }

  lemma SigmaOrder(x: Digit)
    ensures Sigma(Sigma(Sigma(Sigma(Sigma(Sigma(Sigma(Sigma(x)))))))) == x
  {
  }

  lemma RowsOfP(i: nat, x: Digit)
    requires i < 8
    ensures |VERHOEFF_P| == 8 && |VERHOEFF_P[i]| == 10
    ensures VERHOEFF_P[0][x] == x
    ensures i < 7 ==> VERHOEFF_P[i + 1][x] == Sigma(VERHOEFF_P[i][x])
    ensures 0 <= VERHOEFF_P[i][x] < 10
  {
  }

  lemma {:induction false} PermPeriod(position: nat)
    ensures forall x: Digit :: Perm(position, x) == Perm(position % 8, x)
  {
    if position >= 8 {
      PermPeriod(position - 8);
      SameRow(position);
      forall x: Digit ensures Perm(position, x) == Perm(position - 8, x) {
        EightMore(position - 8, x);
      }
    } else {
      assert position % 8 == position;
    }
  }

  lemma SameRow(position: nat)
    requires position >= 8
    ensures position % 8 == (position - 8) % 8
  {
  }

  lemma {:induction false} TableP(position: nat, x: Digit)
    ensures |VERHOEFF_P| == 8 && |VERHOEFF_P[position % 8]| == 10
    ensures VERHOEFF_P[position % 8][x] == Perm(position, x)
  {
    PermPeriod(position);
    TablePRow(position % 8, x);
  }

  lemma {:induction false} TablePRow(i: nat, x: Digit)
    requires i < 8
    ensures |VERHOEFF_P| == 8 && |VERHOEFF_P[i]| == 10
    ensures VERHOEFF_P[i][x] == Perm(i, x)
  {
    if i == 0 {
      RowsOfP(0, x);
    } else {
      TablePRow(i - 1, x);
      RowsOfP(i - 1, x);
      RowsOfP(i, x);
    }
  }

  lemma EightMore(position: nat, x: Digit)
    ensures Perm(position + 8, x) == Perm(position, x)
  {
    var p := Perm(position, x);
    SigmaOrder(p);
    assert Perm(position + 2, x) == Sigma(Sigma(p));
    assert Perm(position + 4, x) == Sigma(Sigma(Perm(position + 2, x)));
    assert Perm(position + 6, x) == Sigma(Sigma(Perm(position + 4, x)));
    assert Perm(position + 8, x) == Sigma(Sigma(Perm(position + 6, x)));
  }

  lemma RotationAssociates(a: Digit, b: Digit, c: Digit)
    requires a < 5
    ensures Mul(Mul(a, b), c) == Mul(a, Mul(b, c))
  {
  }

  lemma MulAssociates(a: Digit, b: Digit, c: Digit)
    ensures Mul(Mul(a, b), c) == Mul(a, Mul(b, c))
  {
    if a < 5 {
      RotationAssociates(a, b, c);
    }
  }

  lemma MulCancels(a: Digit, b: Digit, c: Digit)
    ensures Mul(a, b) == Mul(a, c) ==> b == c
    ensures Mul(b, a) == Mul(c, a) ==> b == c
  {
  }

  lemma InvInverts(a: Digit, x: Digit)
    ensures Mul(x, a) == 0 <==> x == Inv(a)
    ensures VERHOEFF_INV[a] == Inv(a)
  {
  }

  /** What makes swaps visible: the twisted product of two different digits does not commute. */
  lemma Twisted(a: Digit, b: Digit)
    requires a != b
    ensures Mul(a, Sigma(b)) != Mul(b, Sigma(a))
  {
  }

  // ---- Running products, for any multiplication ----

  type Product = (Digit, Digit) -> Digit

  /** The running product of a list of factors, starting from 0. */
  function Fold(mul: Product, factors: seq<Digit>): Digit
  {
    if factors == [] then 0
    else mul(Fold(mul, factors[..|factors| - 1]), factors[|factors| - 1])
  }

  lemma FoldNext(mul: Product, f: seq<Digit>, i: nat)
    requires i < |f|
    ensures Fold(mul, f[..i + 1]) == mul(Fold(mul, f[..i]), f[i])
  {
    assert f[..i + 1][..i] == f[..i];
  }

  ghost predicate Cancels(mul: Product)
  {
    && (forall a: Digit, b: Digit, c: Digit :: mul(a, b) == mul(a, c) ==> b == c)
    && (forall a: Digit, b: Digit, c: Digit :: mul(b, a) == mul(c, a) ==> b == c)
  }

  /** Products that differ after m factors still differ after the same further factors. */
  lemma {:induction false} StaysApart(mul: Product, f: seq<Digit>, g: seq<Digit>, m: nat)
    requires Cancels(mul) && |f| == |g| && m <= |f|
    requires forall k :: m <= k < |f| ==> f[k] == g[k]
    requires Fold(mul, f[..m]) != Fold(mul, g[..m])
    ensures Fold(mul, f) != Fold(mul, g)
  {
    var n := |f| - 1;
    if m == |f| {
      assert f[..m] == f && g[..m] == g;
    } else {
      assert f[..n][..m] == f[..m] && g[..n][..m] == g[..m];
      StaysApart(mul, f[..n], g[..n], m);
    }
  }

  /** One factor changed changes the product. */
  lemma {:induction false} OneFactorShows(mul: Product, f: seq<Digit>, g: seq<Digit>, m: nat)
    requires Cancels(mul) && |f| == |g| && m < |f|
    requires forall k :: 0 <= k < |f| && k != m ==> f[k] == g[k]
    requires f[m] != g[m]
    ensures Fold(mul, f) != Fold(mul, g)
  {
    assert f[..m] == g[..m];
    assert f[..m + 1][..m] == f[..m] && g[..m + 1][..m] == g[..m];
    StaysApart(mul, f, g, m + 1);
  }

  /** Two adjacent factors changed change the product if they do so after any prefix. */
  lemma {:induction false} TwoFactorsShow(mul: Product, f: seq<Digit>, g: seq<Digit>, m: nat)
    requires Cancels(mul) && |f| == |g| && m + 1 < |f|
    requires forall k :: 0 <= k < |f| && k != m && k != m + 1 ==> f[k] == g[k]
    requires forall c: Digit :: mul(mul(c, f[m]), f[m + 1]) != mul(mul(c, g[m]), g[m + 1])
    ensures Fold(mul, f) != Fold(mul, g)
  {
    assert f[..m] == g[..m];
    assert f[..m + 2][..m + 1] == f[..m + 1] && f[..m + 1][..m] == f[..m];
    assert g[..m + 2][..m + 1] == g[..m + 1] && g[..m + 1][..m] == g[..m];
    StaysApart(mul, f, g, m + 2);
  }

  ghost predicate AssociatesAt(mul: Product, a: Digit, b: Digit, c: Digit)
  {
    mul(mul(a, b), c) == mul(a, mul(b, c))
  }

  /** A factor in front multiplies the whole product from the left. */
  lemma {:induction false} FactorInFront(mul: Product, x: Digit, f: seq<Digit>)
    requires mul(0, x) == x == mul(x, 0)
    requires forall b: Digit, c: Digit :: AssociatesAt(mul, x, b, c)
    ensures Fold(mul, [x] + f) == mul(x, Fold(mul, f))
  {
    var h := [x] + f;
    if f == [] {
      assert h == [x] && h[..0] == [];
    } else {
      var n := |f| - 1;
      FactorInFront(mul, x, f[..n]);
      assert h[..n + 1] == [x] + f[..n] && h[n + 1] == f[n];
      assert AssociatesAt(mul, x, Fold(mul, f[..n]), f[n]);
    }
  }

  lemma MulIsCancellative()
    ensures Cancels(Mul)
  {
    forall a: Digit, b: Digit, c: Digit ensures Mul(a, b) == Mul(a, c) ==> b == c {
      MulCancels(a, b, c);
    }
    forall a: Digit, b: Digit, c: Digit ensures Mul(b, a) == Mul(c, a) ==> b == c {
      MulCancels(a, b, c);
    }
  }

  // ---- The walk over a string ----

  /** At least one character, and each of them between 0 and 9. */
  predicate AllDigits(value: string)
  {
    value != "" && forall i :: 0 <= i < |value| ==> IsDigit(value[i])
  }

  /** What step k of the right-to-left walk multiplies by; `offset` is the last character's position. */
  function FactorAt(value: string, offset: nat, k: nat): Digit
    requires AllDigits(value) && k < |value|
  {
    Perm(k + offset, DigitValue(value[|value| - 1 - k]))
  }

  function Factors(value: string, offset: nat): (f: seq<Digit>)
    requires AllDigits(value)
    ensures |f| == |value|
    ensures forall k: nat :: k < |f| ==> f[k] == FactorAt(value, offset, k)
  {
    seq(|value|, k requires 0 <= k < |value| => FactorAt(value, offset, k))
  }

  /** The final digit is the right one for the rest. */
  predicate Validates(value: string)
  {
    AllDigits(value) && Fold(Mul, Factors(value, 0)) == 0
  }

  /** One step of the walk, read off the tables. */
  method Step(c: Digit, position: nat, x: Digit) returns (c': Digit)
    ensures c' == Mul(c, Perm(position, x))
  {
    TableP(position, x);
    var permuted := VERHOEFF_P[position % 8][x];
    TableD(c, permuted);
    c' := VERHOEFF_D[c][permuted];
  }

  /** The walk as computed from the tables. */
  method RunWalk(value: string, offset: nat) returns (c: Digit)
    requires AllDigits(value)
    ensures c == Fold(Mul, Factors(value, offset))
  {
    c := 0;
    ghost var f := Factors(value, offset);
    for i := 0 to |value|
      invariant c == Fold(Mul, f[..i])
    {
      FoldNext(Mul, f, i);
      c := Step(c, i + offset, DigitValue(value[|value| - 1 - i]));
    }
    assert f[..|value|] == f;
  }

  method VerhoeffValidates(digits: string) returns (valid: bool)
    ensures valid == Validates(digits)
    ensures digits == "" || (exists i :: 0 <= i < |digits| && !('0' <= digits[i] <= '9')) ==> !valid
  {
    if !AllDigits(digits) {
      return false;
    }
    var c := RunWalk(digits, 0);
    return c == 0;
  }

  /** The check digit of a payload is the one and only final digit that validates. */
  method VerhoeffCheckDigit(payload: string) returns (digit: Result<int>)
    ensures digit.Ok? <==> payload != "" && forall i :: 0 <= i < |payload| ==> '0' <= payload[i] <= '9'
    ensures digit.Ok? ==> 0 <= digit.value < 10
    ensures digit.Ok? ==> forall c: char :: Validates(payload + [c]) <==> c == DigitChar(digit.value)
  {
    if !AllDigits(payload) {
      return Err("verhoeffCheckDigit needs digits only");
    }
    var c := RunWalk(payload, 1);
    InvInverts(c, 0);
    digit := Ok(VERHOEFF_INV[c]);
    forall last: char ensures Validates(payload + [last]) <==> last == DigitChar(Inv(c)) {
      LastDigitDecides(payload, last);
    }
  }

  /** Appending a check digit puts it in front of the factors of the payload one position on. */
  lemma AppendedFactors(payload: string, last: char)
    requires AllDigits(payload) && IsDigit(last)
    ensures AllDigits(payload + [last])
    ensures Factors(payload + [last], 0) == [DigitValue(last)] + Factors(payload, 1)
  {
    var whole := payload + [last];
    forall k: nat | k < |payload| ensures FactorAt(whole, 0, k + 1) == FactorAt(payload, 1, k) {
    }
    assert FactorAt(whole, 0, 0) == DigitValue(last);
  }

  lemma LastDigitDecides(payload: string, last: char)
    requires AllDigits(payload)
    ensures Validates(payload + [last]) <==> last == DigitChar(Inv(Fold(Mul, Factors(payload, 1))))
  {
    var whole, c := payload + [last], Fold(Mul, Factors(payload, 1));
    if IsDigit(last) {
      var x := DigitValue(last);
      AppendedFactors(payload, last);
      forall b: Digit, d: Digit ensures AssociatesAt(Mul, x, b, d) {
        MulAssociates(x, b, d);
      }
      FactorInFront(Mul, x, Factors(payload, 1));
      assert Fold(Mul, Factors(whole, 0)) == Mul(x, c);
      InvInverts(c, x);
    } else {
      assert !IsDigit(whole[|payload|]);
    }
  }

  // ---- Slips the check digit catches ----

  /** Different digits stay different under the permutation of any position. */
  lemma {:induction false} PermKeepsApart(position: nat, x: Digit, y: Digit)
    requires x != y
    ensures Perm(position, x) != Perm(position, y)
  {
    if position > 0 {
      PermKeepsApart(position - 1, x, y);
    }
  }

  /** Any one character changed makes a validating string fail, whatever its length. */
  lemma CatchesSubstitution(v: string, p: nat, c: char)
    requires Validates(v) && p < |v| && c != v[p]
    ensures !Validates(v[p := c])
  {
    var w := v[p := c];
    if !IsDigit(c) {
      assert !IsDigit(w[p]);
    } else {
      assert AllDigits(w);
      var k := |v| - 1 - p;
      PermKeepsApart(k, DigitValue(v[p]), DigitValue(w[p]));
      MulIsCancellative();
      OneFactorShows(Mul, Factors(v, 0), Factors(w, 0), k);
    }
  }

  function Swapped(v: string, p: nat): (w: string)
    requires p + 1 < |v|
    ensures |w| == |v| && w[p] == v[p + 1] && w[p + 1] == v[p]
    ensures forall i :: 0 <= i < |v| && i != p && i != p + 1 ==> w[i] == v[i]
  {
    v[p := v[p + 1]][p + 1 := v[p]]
  }

  /** Swapping two digits crosses two adjacent factors over, one through sigma each way. */
  lemma SwapCrosses(v: string, p: nat)
    requires p + 1 < |v| && v[p] != v[p + 1] && AllDigits(v) && AllDigits(Swapped(v, p))
    ensures var k, f, g := |v| - 2 - p, Factors(v, 0), Factors(Swapped(v, p), 0);
      && f[k] != g[k] && f[k + 1] == Sigma(g[k]) && g[k + 1] == Sigma(f[k])
      && forall i :: 0 <= i < |v| && i != k && i != k + 1 ==> f[i] == g[i]
  {
    var w, k := Swapped(v, p), |v| - 2 - p;
    PermKeepsApart(k, DigitValue(v[p]), DigitValue(w[p]));
    assert FactorAt(v, 0, k) == Perm(k, DigitValue(v[p + 1])) && FactorAt(w, 0, k) == Perm(k, DigitValue(v[p]));
    assert FactorAt(v, 0, k + 1) == Sigma(FactorAt(w, 0, k));
    assert FactorAt(w, 0, k + 1) == Sigma(FactorAt(v, 0, k));
    forall i: nat | i < |v| && i != k && i != k + 1 ensures FactorAt(v, 0, i) == FactorAt(w, 0, i) {
    }
  }

  /** Any two adjacent unequal digits swapped make a validating string fail. */
  lemma CatchesSwap(v: string, p: nat)
    requires Validates(v) && p + 1 < |v| && v[p] != v[p + 1]
    ensures !Validates(Swapped(v, p))
  {
    var w := Swapped(v, p);
    if AllDigits(w) {
      var k, f, g := |v| - 2 - p, Factors(v, 0), Factors(w, 0);
      SwapCrosses(v, p);
      forall c: Digit ensures Mul(Mul(c, f[k]), f[k + 1]) != Mul(Mul(c, g[k]), g[k + 1]) {
        SwapAlgebra(c, f[k], g[k]);
      }
      MulIsCancellative();
      TwoFactorsShow(Mul, f, g, k);
    }
  }

  lemma SwapAlgebra(c: Digit, a: Digit, b: Digit)
    requires a != b
    ensures Mul(Mul(c, a), Sigma(b)) != Mul(Mul(c, b), Sigma(a))
  {
    MulAssociates(c, a, Sigma(b));
    MulAssociates(c, b, Sigma(a));
    Twisted(a, b);
    MulCancels(c, Mul(a, Sigma(b)), Mul(b, Sigma(a)));
  }

  // ---- Aadhaar numbers ----

  /** One digit typed twelve times over. */
  predicate IsPlaceholder(value: string)
  {
    AllDigits(value) && |value| == 12 && forall i :: 0 <= i < 12 ==> value[i] == value[0]
  }

  predicate IsValidAadhaar(value: string)
  {
    AllDigits(value) && |value| == 12 && !IsPlaceholder(value) && Validates(value)
  }

  /** A mistyped digit or two swapped digits never give another valid Aadhaar. */
  lemma AadhaarCatchesSlips(value: string, p: nat, c: char)
    requires IsValidAadhaar(value) && p < 12
    ensures c != value[p] ==> !IsValidAadhaar(value[p := c])
    ensures p < 11 && value[p] != value[p + 1] ==> !IsValidAadhaar(Swapped(value, p))
  {
    if c != value[p] {
      CatchesSubstitution(value, p, c);
    }
    if p < 11 && value[p] != value[p + 1] {
      CatchesSwap(value, p);
    }
  }

  // ---- Known numbers ----

  /** The walk over v stands at c after k digits. */
  ghost predicate StandsAt(v: string, k: nat, c: Digit)
  {
    AllDigits(v) && k <= |v| && Fold(Mul, Factors(v, 0)[..k]) == c
  }

  /** One step over digit x, as the tables have it. */
  lemma WalkStep(v: string, k: nat, c: Digit, x: Digit, q: Digit, c': Digit)
    requires StandsAt(v, k, c) && k < |v| && v[|v| - 1 - k] == DigitChar(x)
    requires |VERHOEFF_P[k % 8]| == 10 && VERHOEFF_P[k % 8][x] == q
    requires |VERHOEFF_D[c]| == 10 && VERHOEFF_D[c][q] == c'
    ensures StandsAt(v, k + 1, c')
  {
    FoldNext(Mul, Factors(v, 0), k);
    TableP(k, x);
    TableD(c, q);
  }

  lemma WalkStarts(v: string)
    requires AllDigits(v)
    ensures StandsAt(v, 0, 0)
  {
  }

  lemma WalkEnds(v: string)
    requires StandsAt(v, |v|, 0)
    ensures Validates(v)
  {
    assert Factors(v, 0)[..|v|] == Factors(v, 0);
  }

  /** The algorithm's own worked example: 236 takes check digit 3. */
  lemma ReferenceVector(v: string)
    requires v == "2363"
    ensures Validates(v)
  {
    WalkStarts(v);
    WalkStep(v, 0, 0, 3, 3, 3);
    WalkStep(v, 1, 3, 6, 3, 1);
    WalkStep(v, 2, 1, 3, 3, 4);
    WalkStep(v, 3, 4, 2, 1, 0);
    WalkEnds(v);
  }

  lemma KnownAadhaarWalk1(v: string)
    requires v == "999941057058" && StandsAt(v, 0, 0)
    ensures StandsAt(v, 4, 0)
  {
    WalkStep(v, 0, 0, 8, 8, 8);
    WalkStep(v, 1, 8, 5, 8, 0);
    WalkStep(v, 2, 0, 0, 5, 5);
    WalkStep(v, 3, 5, 7, 5, 0);
  }

  lemma KnownAadhaarWalk2(v: string)
    requires v == "999941057058" && StandsAt(v, 4, 0)
    ensures StandsAt(v, 8, 4)
  {
    WalkStep(v, 4, 0, 5, 2, 2);
    WalkStep(v, 5, 2, 0, 4, 1);
    WalkStep(v, 6, 1, 1, 7, 8);
    WalkStep(v, 7, 8, 4, 9, 4);
  }

  lemma KnownAadhaarWalk3(v: string)
    requires v == "999941057058" && StandsAt(v, 8, 4)
    ensures StandsAt(v, 12, 0)
  {
    WalkStep(v, 8, 4, 9, 9, 8);
    WalkStep(v, 9, 8, 9, 4, 9);
    WalkStep(v, 10, 9, 9, 2, 7);
    WalkStep(v, 11, 7, 9, 7, 0);
  }

  /** A number of the issuer's published test range is valid. */
  lemma KnownAadhaar(v: string)
    requires v == "999941057058"
    ensures IsValidAadhaar(v)
  {
    WalkStarts(v);
    KnownAadhaarWalk1(v);
    KnownAadhaarWalk2(v);
    KnownAadhaarWalk3(v);
    WalkEnds(v);
  }

  lemma NinesAreRefusedWalk1(v: string)
    requires v == "999999999999" && StandsAt(v, 0, 0)
    ensures StandsAt(v, 4, 1)
  {
    WalkStep(v, 0, 0, 9, 9, 9);
    WalkStep(v, 1, 9, 9, 4, 5);
    WalkStep(v, 2, 5, 9, 2, 8);
    WalkStep(v, 3, 8, 9, 7, 1);
  }

  lemma NinesAreRefusedWalk2(v: string)
    requires v == "999999999999" && StandsAt(v, 4, 1)
    ensures StandsAt(v, 8, 4)
  {
    WalkStep(v, 4, 1, 9, 0, 1);
    WalkStep(v, 5, 1, 9, 1, 2);
    WalkStep(v, 6, 2, 9, 5, 7);
    WalkStep(v, 7, 7, 9, 8, 4);
  }

  lemma NinesAreRefusedWalk3(v: string)
    requires v == "999999999999" && StandsAt(v, 8, 4)
    ensures StandsAt(v, 12, 0)
  {
    WalkStep(v, 8, 4, 9, 9, 8);
    WalkStep(v, 9, 8, 9, 4, 9);
    WalkStep(v, 10, 9, 9, 2, 7);
    WalkStep(v, 11, 7, 9, 7, 0);
  }

  /** Twelve nines pass the checksum and are refused all the same. */
  lemma NinesAreRefused(v: string)
    requires v == "999999999999"
    ensures Validates(v) && !IsValidAadhaar(v)
  {
    WalkStarts(v);
    NinesAreRefusedWalk1(v);
    NinesAreRefusedWalk2(v);
    NinesAreRefusedWalk3(v);
    WalkEnds(v);
  }
}

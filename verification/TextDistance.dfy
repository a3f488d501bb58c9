/**
 * A bounded edit distance (packages/shared/src/text-distance.ts).
 *
 * The meaning of the distance is given by edit scripts: the least cost of a script that turns one
 * text into the other, where a script never edits between two swapped letters. `Osa` is the
 * recurrence, `EditDistance` the bounded computation with rolling rows and an early exit.
 */
module TextDistance {

  import opened Common

  /** One slip (or none) made while copying a text. */
  datatype Slip =
    | Keep(c: char)
    | Replace(from: char, to: char)
    | Insert(added: char)
    | Delete(dropped: char)
    | Swap(first: char, second: char)

  /** What a slip reads of the original. */
  ghost function Old(s: Slip): string
  {
    match s
    case Keep(c) => [c]
    case Replace(c, _) => [c]
    case Insert(_) => []
    case Delete(c) => [c]
    case Swap(c, d) => [c, d]
  }

  /** What a slip writes into the copy. */
  ghost function New(s: Slip): string
  {
    match s
    case Keep(c) => [c]
    case Replace(_, d) => [d]
    case Insert(d) => [d]
    case Delete(_) => []
    case Swap(c, d) => [d, c]
  }

  ghost function Takes(s: Slip): nat { if s.Insert? then 0 else if s.Swap? then 2 else 1 }
  ghost function Gives(s: Slip): nat { if s.Delete? then 0 else if s.Swap? then 2 else 1 }
  ghost function Price(s: Slip): nat { if s.Keep? then 0 else 1 }

  ghost function Before(script: seq<Slip>): string
  {
    if script == [] then "" else Before(script[..|script| - 1]) + Old(script[|script| - 1])
  }

  ghost function After(script: seq<Slip>): string
  {
    if script == [] then "" else After(script[..|script| - 1]) + New(script[|script| - 1])
  }

  /** How many slips a script makes. */
  ghost function Cost(script: seq<Slip>): nat
  {
    if script == [] then 0 else
    Cost(script[..|script| - 1]) + Price(script[|script| - 1])
  }

  /** `script` copies `a` into `b`; swaps are allowed only when they count as one edit. */
  ghost predicate Copies(script: seq<Slip>, a: string, b: string, transpositions: bool)
  {
    && Before(script) == a
    && After(script) == b
    && (transpositions || forall s <- script :: !s.Swap?)
  }

  /** Do letters i-2, i-1 of `a` appear swapped as letters j-2, j-1 of `b`? */
  predicate Swapped(a: string, b: string, i: nat, j: nat)
    requires i <= |a| && j <= |b|
  {
    i > 1 && j > 1 && a[i - 1] == b[j - 2] && a[i - 2] == b[j - 1]
  }

  /** One entry of the table from its neighbours: to the left, above, diagonal, and two up two left. */
  function Cell(a: string, b: string, tr: bool, i: nat, j: nat, left: int, above: int, diagonal: int, corner: int): int
    requires 0 < i <= |a| && 0 < j <= |b|
  {
    var cost := if a[i - 1] == b[j - 1] then 0 else 1;
    var plain := Min(Min(left + 1, above + 1), diagonal + cost);
    if tr && Swapped(a, b, i, j) then Min(plain, corner + 1) else plain
  }

  /** The distance of the first i letters of `a` from the first j of `b`, as a recurrence. */
  function OsaAt(a: string, b: string, tr: bool, i: nat, j: nat): (distance: int)
    requires i <= |a| && j <= |b|
    decreases i + j
  {
    if i == 0 then j
    else if j == 0 then i
    else
      Cell(a, b, tr, i, j,
        OsaAt(a, b, tr, i, j - 1), OsaAt(a, b, tr, i - 1, j), OsaAt(a, b, tr, i - 1, j - 1),
        if i > 1 && j > 1 then OsaAt(a, b, tr, i - 2, j - 2) else 0)
  }

  function Osa(a: string, b: string, transpositions: bool): int
  {
    OsaAt(a, b, transpositions, |a|, |b|)
  }

  // ---- The recurrence is the least cost of a script ----

  /** Adding one slip to a script adds its letters to both texts. */
  lemma {:induction false} Extend(script: seq<Slip>, a: string, b: string, tr: bool, s: Slip)
    requires Copies(script, a, b, tr)
    requires s.Swap? ==> tr
    ensures Copies(script + [s], a + Old(s), b + New(s), tr)
    ensures Cost(script + [s]) == Cost(script) + Price(s)
  {
    assert (script + [s])[..|script|] == script;
  }

  /** A whole text put in letter by letter. */
  lemma {:induction false} PutIn(t: string, tr: bool) returns (script: seq<Slip>)
    ensures Copies(script, "", t, tr) && Cost(script) == |t|
  {
    if t == "" {
      script := [];
    } else {
      var n := |t| - 1;
      var init := PutIn(t[..n], tr);
      var s := Insert(t[n]);
      assert "" + Old(s) == "" && t[..n] + New(s) == t;
      Extend(init, "", t[..n], tr, s);
      script := init + [s];
    }
  }

  /** A whole text dropped letter by letter. */
  lemma {:induction false} DropAll(t: string, tr: bool) returns (script: seq<Slip>)
    ensures Copies(script, t, "", tr) && Cost(script) == |t|
  {
    if t == "" {
      script := [];
    } else {
      var n := |t| - 1;
      var init := DropAll(t[..n], tr);
      var s := Delete(t[n]);
      assert t[..n] + Old(s) == t && "" + New(s) == "";
      Extend(init, t[..n], "", tr, s);
      script := init + [s];
    }
  }

  /** A whole text kept letter by letter. */
  lemma {:induction false} KeepAll(t: string, tr: bool) returns (script: seq<Slip>)
    ensures Copies(script, t, t, tr) && Cost(script) == 0
  {
    if t == "" {
      script := [];
    } else {
      var n := |t| - 1;
      var init := KeepAll(t[..n], tr);
      var s := Keep(t[n]);
      assert t[..n] + Old(s) == t && t[..n] + New(s) == t;
      Extend(init, t[..n], t[..n], tr, s);
      script := init + [s];
    }
  }

  /** The slip is one that can end a copy of the first i letters of `a` into the first j of `b`. */
  ghost predicate EndsWith(a: string, b: string, tr: bool, i: nat, j: nat, s: Slip)
    requires i <= |a| && j <= |b|
  {
    match s
    case Keep(c) => i > 0 && j > 0 && a[i - 1] == b[j - 1] == c
    case Replace(c, d) => i > 0 && j > 0 && a[i - 1] == c && b[j - 1] == d
    case Insert(d) => j > 0 && b[j - 1] == d
    case Delete(c) => i > 0 && a[i - 1] == c
    case Swap(c, d) => tr && Swapped(a, b, i, j) && a[i - 2] == c && a[i - 1] == d
  }

  /** One step of the recurrence, with its four neighbours named. */
  lemma OsaCell(a: string, b: string, tr: bool, i: nat, j: nat)
    requires 0 < i <= |a| && 0 < j <= |b|
    ensures OsaAt(a, b, tr, i, j) == Cell(a, b, tr, i, j,
      OsaAt(a, b, tr, i, j - 1), OsaAt(a, b, tr, i - 1, j), OsaAt(a, b, tr, i - 1, j - 1),
      if i > 1 && j > 1 then OsaAt(a, b, tr, i - 2, j - 2) else 0)
  {
  }

  /** The neighbour a slip starts from. */
  ghost function From(s: Slip, left: int, above: int, diagonal: int, corner: int): int
  {
    match s
    case Insert(_) => left
    case Delete(_) => above
    case Swap(_, _) => corner
    case _ => diagonal
  }

  lemma CellChoice(a: string, b: string, tr: bool, i: nat, j: nat, left: int, above: int, diagonal: int, corner: int)
      returns (s: Slip)
    requires 0 < i <= |a| && 0 < j <= |b|
    ensures EndsWith(a, b, tr, i, j, s)
    ensures Cell(a, b, tr, i, j, left, above, diagonal, corner) == From(s, left, above, diagonal, corner) + Price(s)
  {
    var v := Cell(a, b, tr, i, j, left, above, diagonal, corner);
    if v == left + 1 {
      s := Insert(b[j - 1]);
    } else if v == above + 1 {
      s := Delete(a[i - 1]);
    } else if tr && Swapped(a, b, i, j) && v == corner + 1 {
      s := Swap(a[i - 2], a[i - 1]);
    } else {
      s := if a[i - 1] == b[j - 1] then Keep(a[i - 1]) else Replace(a[i - 1], b[j - 1]);
    }
  }

  /** Where a last slip starts from, in the recurrence. */
  lemma {:induction false} StartOf(a: string, b: string, tr: bool, i: nat, j: nat, s: Slip)
    requires 0 < i <= |a| && 0 < j <= |b| && EndsWith(a, b, tr, i, j, s)
    ensures OsaAt(a, b, tr, i - Takes(s), j - Gives(s)) == From(s,
      OsaAt(a, b, tr, i, j - 1), OsaAt(a, b, tr, i - 1, j), OsaAt(a, b, tr, i - 1, j - 1),
      if i > 1 && j > 1 then OsaAt(a, b, tr, i - 2, j - 2) else 0)
  {
  }

  lemma CellLeast(a: string, b: string, tr: bool, i: nat, j: nat, s: Slip,
                  left: int, above: int, diagonal: int, corner: int)
    requires 0 < i <= |a| && 0 < j <= |b| && EndsWith(a, b, tr, i, j, s)
    ensures Cell(a, b, tr, i, j, left, above, diagonal, corner) <= From(s, left, above, diagonal, corner) + Price(s)
  {
  }

  /** No last slip is cheaper than the recurrence's choice. */
  lemma OsaStep(a: string, b: string, tr: bool, i: nat, j: nat, s: Slip)
    requires i <= |a| && j <= |b| && EndsWith(a, b, tr, i, j, s)
    ensures OsaAt(a, b, tr, i, j) <= OsaAt(a, b, tr, i - Takes(s), j - Gives(s)) + Price(s)
  {
    if i > 0 && j > 0 {
      OsaCell(a, b, tr, i, j);
      StartOf(a, b, tr, i, j, s);
      CellLeast(a, b, tr, i, j, s,
        OsaAt(a, b, tr, i, j - 1), OsaAt(a, b, tr, i - 1, j), OsaAt(a, b, tr, i - 1, j - 1),
        if i > 1 && j > 1 then OsaAt(a, b, tr, i - 2, j - 2) else 0);
    }
  }

  /** The recurrence's own choice at the last letters. */
  lemma LastSlip(a: string, b: string, tr: bool, i: nat, j: nat) returns (s: Slip)
    requires 0 < i <= |a| && 0 < j <= |b|
    ensures EndsWith(a, b, tr, i, j, s)
    ensures OsaAt(a, b, tr, i, j) == OsaAt(a, b, tr, i - Takes(s), j - Gives(s)) + Price(s)
  {
    OsaCell(a, b, tr, i, j);
    s := CellChoice(a, b, tr, i, j,
      OsaAt(a, b, tr, i, j - 1), OsaAt(a, b, tr, i - 1, j), OsaAt(a, b, tr, i - 1, j - 1),
      if i > 1 && j > 1 then OsaAt(a, b, tr, i - 2, j - 2) else 0);
    StartOf(a, b, tr, i, j, s);
  }

  /** Taking the slip off the end takes its letters off both texts, and putting it on adds them. */
  lemma EndsWithLetters(a: string, b: string, tr: bool, i: nat, j: nat, s: Slip)
    requires i <= |a| && j <= |b| && EndsWith(a, b, tr, i, j, s)
    ensures a[..i] == a[..i - Takes(s)] + Old(s)
    ensures b[..j] == b[..j - Gives(s)] + New(s)
  {
  }

  /** Some script reaches the recurrence's value. */
  lemma {:induction false} OsaIsReached(a: string, b: string, tr: bool, i: nat, j: nat) returns (script: seq<Slip>)
    requires i <= |a| && j <= |b|
    ensures Copies(script, a[..i], b[..j], tr) && Cost(script) == OsaAt(a, b, tr, i, j)
    decreases i + j
  {
    if i == 0 {
      script := PutIn(b[..j], tr);
    } else if j == 0 {
      script := DropAll(a[..i], tr);
    } else {
      var s := LastSlip(a, b, tr, i, j);
      var i', j' := i - Takes(s), j - Gives(s);
      var init := OsaIsReached(a, b, tr, i', j');
      Extend(init, a[..i'], b[..j'], tr, s);
      EndsWithLetters(a, b, tr, i, j, s);
      script := init + [s];
    }
  }

  lemma LastLetters(t: string, i: nat, u: string, v: string)
    requires i <= |t| && t[..i] == u + v
    ensures |v| <= i && u == t[..i - |v|]
    ensures |v| > 0 ==> t[i - 1] == v[|v| - 1]
    ensures |v| > 1 ==> t[i - 2] == v[|v| - 2]
  {
    assert t[..i][..i - |v|] == t[..i - |v|];
    assert |v| > 0 ==> t[..i][i - 1] == v[|v| - 1];
    assert |v| > 1 ==> t[..i][i - 2] == v[|v| - 2];
  }

  lemma EndsWithFromLetters(a: string, b: string, tr: bool, i: nat, j: nat, u: string, w: string, s: Slip)
    requires i <= |a| && j <= |b| && (s.Swap? ==> tr)
    requires a[..i] == u + Old(s) && b[..j] == w + New(s)
    ensures EndsWith(a, b, tr, i, j, s)
    ensures u == a[..i - Takes(s)] && w == b[..j - Gives(s)]
  {
    LastLetters(a, i, u, Old(s));
    LastLetters(b, j, w, New(s));
  }

  /** No script is cheaper than the recurrence's value. */
  lemma {:induction false} OsaIsLeast(script: seq<Slip>, a: string, b: string, tr: bool, i: nat, j: nat)
    requires i <= |a| && j <= |b| && Copies(script, a[..i], b[..j], tr)
    ensures OsaAt(a, b, tr, i, j) <= Cost(script)
    decreases |script|
  {
    if script != [] {
      var init, s := script[..|script| - 1], script[|script| - 1];
      assert s in script;
      EndsWithFromLetters(a, b, tr, i, j, Before(init), After(init), s);
      OsaIsLeast(init, a, b, tr, i - Takes(s), j - Gives(s));
      OsaStep(a, b, tr, i, j, s);
    }
  }

  ghost function Undo(s: Slip): Slip
  {
    match s
    case Keep(c) => Keep(c)
    case Replace(c, d) => Replace(d, c)
    case Insert(c) => Delete(c)
    case Delete(c) => Insert(c)
    case Swap(c, d) => Swap(d, c)
  }

  lemma UndoSlip(s: Slip)
    ensures Old(Undo(s)) == New(s) && New(Undo(s)) == Old(s)
    ensures Price(Undo(s)) == Price(s) && Undo(s).Swap? == s.Swap?
  {
  }

  lemma {:induction false} UndoCopies(script: seq<Slip>, a: string, b: string, tr: bool) returns (back: seq<Slip>)
    requires Copies(script, a, b, tr)
    ensures Copies(back, b, a, tr) && Cost(back) == Cost(script)
  {
    if script == [] {
      back := [];
    } else {
      var n := |script| - 1;
      var init, s := script[..n], script[n];
      assert script == init + [s];
      var back1 := UndoCopies(init, Before(init), After(init), tr);
      UndoSlip(s);
      Extend(back1, After(init), Before(init), tr, Undo(s));
      back := back1 + [Undo(s)];
    }
  }

  lemma {:induction false} OsaNoMoreThanBack(a: string, b: string, tr: bool)
    ensures Osa(a, b, tr) <= Osa(b, a, tr)
  {
    assert a[..|a|] == a && b[..|b|] == b;
    var there := OsaIsReached(b, a, tr, |b|, |a|);
    var back := UndoCopies(there, b, a, tr);
    OsaIsLeast(back, a, b, tr, |a|, |b|);
  }

  /** The distance does not care which text is the original. */
  lemma OsaSymmetric(a: string, b: string, tr: bool)
    ensures Osa(a, b, tr) == Osa(b, a, tr)
  {
    OsaNoMoreThanBack(a, b, tr);
    OsaNoMoreThanBack(b, a, tr);
  }

  /** Two texts are at distance at most k exactly when some script of at most k slips joins them. */
  lemma WithinBudget(a: string, b: string, tr: bool, k: int)
    ensures Osa(a, b, tr) <= k <==> exists script :: Copies(script, a, b, tr) && Cost(script) <= k
  {
    assert a[..|a|] == a && b[..|b|] == b;
    var best := OsaIsReached(a, b, tr, |a|, |b|);
    forall script | Copies(script, a, b, tr) ensures Osa(a, b, tr) <= Cost(script) {
      OsaIsLeast(script, a, b, tr, |a|, |b|);
    }
  }

  /** One letter added is one slip. */
  lemma OneLetterAdded(t: string, c: char, tr: bool)
    ensures Osa(t, t + [c], tr) <= 1
  {
    var script := KeepAll(t, tr);
    Extend(script, t, t, tr, Insert(c));
    assert t + Old(Insert(c)) == t;
    assert Copies(script + [Insert(c)], t, t + [c], tr);
    WithinBudget(t, t + [c], tr, 1);
  }

  // ---- What justifies the early exits ----

  lemma {:induction false} LengthGap(a: string, b: string, tr: bool, i: nat, j: nat)
    requires i <= |a| && j <= |b|
    ensures OsaAt(a, b, tr, i, j) >= i - j
    ensures OsaAt(a, b, tr, i, j) >= j - i
    decreases i + j
  {
    if i > 0 && j > 0 {
      var s := LastSlip(a, b, tr, i, j);
      LengthGap(a, b, tr, i - Takes(s), j - Gives(s));
    }
  }

  lemma {:induction false} OsaOfSame(a: string, tr: bool, i: nat)
    requires i <= |a|
    ensures OsaAt(a, a, tr, i, i) == 0
  {
    if i > 0 {
      OsaOfSame(a, tr, i - 1);
      OsaStep(a, a, tr, i, i, Keep(a[i - 1]));
      LengthGap(a, a, tr, i, i);
    }
  }

  /** Row i of the table is over budget. */
  ghost predicate Hopeless(a: string, b: string, tr: bool, i: nat, ceiling: int)
    requires i <= |a|
  {
    forall j :: 0 <= j <= |b| ==> OsaAt(a, b, tr, i, j) > ceiling
  }

  /** Every cell costs at least as much as some cell to its left or in the row just above. */
  lemma {:induction false} CheaperNearby(a: string, b: string, tr: bool, k: nat, j: nat) returns (k': nat, j': nat)
    requires 0 < k <= |a| && j <= |b|
    ensures (k' == k && j' + 1 == j) || (k' == k - 1 && j' <= j)
    ensures OsaAt(a, b, tr, k, j) >= OsaAt(a, b, tr, k', j')
  {
    if j == 0 {
      k', j' := k - 1, 0;
    } else {
      var s := LastSlip(a, b, tr, k, j);
      if s.Swap? {
        // the row in between costs at most one more than the row two up
        OsaStep(a, b, tr, k - 1, j - 2, Delete(a[k - 2]));
        k', j' := k - 1, j - 2;
      } else {
        k', j' := k - Takes(s), j - Gives(s);
      }
    }
  }

  /** Once a whole row is over budget so is everything below it, swaps included. */
  lemma {:induction false} HopelessStays(a: string, b: string, tr: bool, i: nat, ceiling: int, k: nat, j: nat)
    requires 0 < i <= k <= |a| && j <= |b|
    requires Hopeless(a, b, tr, i, ceiling)
    ensures OsaAt(a, b, tr, k, j) > ceiling
    decreases k, j
  {
    if i < k {
      var k', j' := CheaperNearby(a, b, tr, k, j);
      HopelessStays(a, b, tr, i, ceiling, k', j');
    }
  }

  // ---- The computation ----

  ghost function Row(a: string, b: string, tr: bool, i: nat): (row: seq<int>)
    requires i <= |a|
    ensures |row| == |b| + 1
    ensures forall j :: 0 <= j <= |b| ==> row[j] == OsaAt(a, b, tr, i, j)
  {
    seq(|b| + 1, j requires 0 <= j <= |b| => OsaAt(a, b, tr, i, j))
  }

  /** `row` follows entry by entry from the row above it and the one above that. */
  ghost predicate Follows(a: string, b: string, tr: bool, i: nat, row: seq<int>, up: seq<int>, upUp: seq<int>)
    requires 0 < i <= |a| && |row| == |up| == |upUp| == |b| + 1
  {
    && row[0] == i
    && forall j :: 0 < j <= |b| ==>
         row[j] == Cell(a, b, tr, i, j, row[j - 1], up[j], up[j - 1], if j > 1 then upUp[j - 2] else 0)
  }

  lemma RowFollows(a: string, b: string, tr: bool, i: nat, upUp: seq<int>)
    requires 0 < i <= |a| && |upUp| == |b| + 1
    requires i > 1 ==> upUp == Row(a, b, tr, i - 2)
    ensures Follows(a, b, tr, i, Row(a, b, tr, i), Row(a, b, tr, i - 1), upUp)
  {
    var row, up := Row(a, b, tr, i), Row(a, b, tr, i - 1);
    forall j | 0 < j <= |b|
      ensures row[j] == Cell(a, b, tr, i, j, row[j - 1], up[j], up[j - 1], if j > 1 then upUp[j - 2] else 0)
    {
      OsaCell(a, b, tr, i, j);
    }
  }

  /** Fills `curr` from the two rows above it and returns its least entry. */
  method FillRow(a: string, b: string, tr: bool, i: nat,
                 beforePrev: array<int>, prev: array<int>, curr: array<int>, ghost row: seq<int>)
      returns (rowBest: int)
    requires 0 < i <= |a|
    requires beforePrev.Length == prev.Length == curr.Length == |row| == |b| + 1
    requires curr != prev && curr != beforePrev
    requires Follows(a, b, tr, i, row, prev[..], beforePrev[..])
    modifies curr
    ensures curr[..] == row
    ensures forall j :: 0 <= j <= |b| ==> rowBest <= row[j]
  {
    ghost var up, upUp := prev[..], beforePrev[..];
    curr[0] := i;
    rowBest := curr[0];
    for j := 1 to |b| + 1
      invariant curr[..j] == row[..j]
      invariant prev[..] == up && beforePrev[..] == upUp
      invariant forall k :: 0 <= k < j ==> rowBest <= row[k]
    {
      assert curr[j - 1] == row[..j][j - 1];
      var cost := if a[i - 1] == b[j - 1] then 0 else 1;
      curr[j] := Min(Min(curr[j - 1] + 1, prev[j] + 1), prev[j - 1] + cost);
      if tr && Swapped(a, b, i, j) {
        curr[j] := Min(curr[j], beforePrev[j - 2] + 1);
      }
      assert curr[..j + 1] == curr[..j] + [curr[j]];
      if curr[j] < rowBest {
        rowBest := curr[j];
      }
    }
  }

  /**
   * The bounded distance: exact when it is within the ceiling, and over the ceiling exactly when
   * the true distance is. Three rows are rolled, and a hopeless pair is given up early.
   */
  method EditDistance(a: string, b: string, ceiling: int, transpositions: bool) returns (distance: int)
    ensures distance <= ceiling <==> Osa(a, b, transpositions) <= ceiling
    ensures distance == Osa(a, b, transpositions) || distance == ceiling + 1
  {
    if a == b {
      OsaOfSame(a, transpositions, |a|);
      return 0;
    }
    LengthGap(a, b, transpositions, |a|, |b|);
    if (if |a| >= |b| then |a| - |b| else |b| - |a|) > ceiling {
      return ceiling + 1;
    }
    var beforePrev := new int[|b| + 1];
    var prev := new int[|b| + 1](j => j);
    var curr := new int[|b| + 1];
    assert prev[..] == Row(a, b, transpositions, 0);
    for i := 1 to |a| + 1
      invariant beforePrev.Length == prev.Length == curr.Length == |b| + 1
      invariant beforePrev != prev && prev != curr && curr != beforePrev
      invariant fresh(beforePrev) && fresh(prev) && fresh(curr)
      invariant prev[..] == Row(a, b, transpositions, i - 1)
      invariant i > 1 ==> beforePrev[..] == Row(a, b, transpositions, i - 2)
    {
      RowFollows(a, b, transpositions, i, beforePrev[..]);
      var rowBest := FillRow(a, b, transpositions, i, beforePrev, prev, curr, Row(a, b, transpositions, i));
      if rowBest > ceiling {
        HopelessStays(a, b, transpositions, i, ceiling, |a|, |b|);
        return ceiling + 1;
      }
      beforePrev, prev, curr := prev, curr, beforePrev;
    }
    return prev[|b|];
  }
}

/**
 * Amounts spelled out with lakhs and crores (packages/shared/src/gst.ts), and read back from the
 * spelling. Amounts are exact numbers of any size, or not finite at all.
 */
module IndianWords {

  const ONES: seq<string> := [
    "", "One", "Two", "Three", "Four", "Five", "Six", "Seven", "Eight", "Nine", "Ten",
    "Eleven", "Twelve", "Thirteen", "Fourteen", "Fifteen", "Sixteen", "Seventeen", "Eighteen", "Nineteen"
  ]

  const TENS: seq<string> := ["", "", "Twenty", "Thirty", "Forty", "Fifty", "Sixty", "Seventy", "Eighty", "Ninety"]

  // ---- Words and phrases ----

  datatype Word =
    | Unit(n: nat) | Ten(t: nat)
    | Hundred | Thousand | Lakh | Crore | Zero
    | Indian | Rupees | And | Paise | Only | Minus

  predicate IsWord(w: Word)
  {
    (w.Unit? ==> 1 <= w.n < 20) && (w.Ten? ==> 2 <= w.t < 10)
  }

  function Spell(w: Word): string
  {
    match w
    case Unit(n) => if n < 20 then ONES[n] else ""
    case Ten(t) => if t < 10 then TENS[t] else ""
    case Hundred => "Hundred"
    case Thousand => "Thousand"
    case Lakh => "Lakh"
    case Crore => "Crore"
    case Zero => "Zero"
    case Indian => "Indian"
    case Rupees => "Rupees"
    case And => "and"
    case Paise => "Paise"
    case Only => "Only"
    case Minus => "Minus"
  }

  /** The word a spelling stands for, told apart by length and a few letters. */
  function Recognise(s: string): Word
  {
    if |s| < 3 then Zero
    else if |s| == 3 then
      (if s[0] == 'O' then Unit(1) else if s[1] == 'w' then Unit(2) else if s[0] == 'S' then Unit(6)
       else if s[0] == 'T' then Unit(10) else And)
    else if |s| == 4 then
      (if s[1] == 'o' then Unit(4) else if s[0] == 'F' then Unit(5) else if s[0] == 'N' then Unit(9)
       else if s[0] == 'L' then Lakh else if s[0] == 'Z' then Zero else Only)
    else if |s| == 5 then
      (if s[0] == 'T' then Unit(3) else if s[1] == 'e' then Unit(7) else if s[0] == 'E' then Unit(8)
       else if s[1] == 'o' then Ten(4) else if s[0] == 'F' then Ten(5) else if s[0] == 'S' then Ten(6)
       else if s[0] == 'C' then Crore else if s[0] == 'P' then Paise else Minus)
    else if |s| == 6 then
      (if s[1] == 'l' then Unit(11) else if s[3] == 'l' then Unit(12) else if s[1] == 'w' then Ten(2)
       else if s[0] == 'T' then Ten(3) else if s[0] == 'E' then Ten(8) else if s[0] == 'N' then Ten(9)
       else if s[0] == 'I' then Indian else Rupees)
    else if |s| == 7 then
      (if s[0] == 'F' then Unit(15) else if s[1] == 'i' then Unit(16) else if s[0] == 'S' then Ten(7) else Hundred)
    else if |s| == 8 then
      (if s[2] == 'i' then Unit(13) else if s[0] == 'F' then Unit(14) else if s[0] == 'E' then Unit(18)
       else if s[0] == 'N' then Unit(19) else Thousand)
    else Unit(17)
  }

  lemma RecogniseUnit(n: nat)
    requires 1 <= n < 20
    ensures Recognise(ONES[n]) == Unit(n)
  {
  }

  lemma RecogniseTen(t: nat)
    requires 2 <= t < 10
    ensures Recognise(TENS[t]) == Ten(t)
  {
  }

  lemma RecogniseSpelling(w: Word)
    requires IsWord(w)
    ensures Recognise(Spell(w)) == w
  {
    match w
    case Unit(n) => RecogniseUnit(n);
    case Ten(t) => RecogniseTen(t);
    case _ =>
  }

  predicate Solid(s: string)
  {
    s != "" && forall i :: 0 <= i < |s| ==> s[i] != ' '
  }

  lemma UnitsAreSolid(n: nat)
    requires 1 <= n < 20
    ensures Solid(ONES[n])
  {
  }

  lemma SpellingIsSolid(w: Word)
    requires IsWord(w)
    ensures Solid(Spell(w))
  {
    if w.Unit? {
      UnitsAreSolid(w.n);
    }
  }

  predicate AllWords(words: seq<Word>)
  {
    forall i :: 0 <= i < |words| ==> IsWord(words[i])
  }

  /** Strings joined with single blanks. */
  function Join(parts: seq<string>): string
  {
    if parts == [] then "" else if |parts| == 1 then parts[0] else parts[0] + " " + Join(parts[1..])
  }

  lemma {:induction false} JoinAppend(a: seq<string>, b: seq<string>)
    requires a != [] && b != []
    ensures Join(a + b) == Join(a) + " " + Join(b)
  {
    if |a| == 1 {
      assert (a + b)[1..] == b;
    } else {
      JoinAppend(a[1..], b);
      assert (a + b)[1..] == a[1..] + b;
    }
  }

  /** The first blank ends the first word. */
  lemma FirstWord(a: string, x: string, b: string, y: string)
    requires Solid(a) && Solid(b) && a + " " + x == b + " " + y
    ensures a == b && x == y
  {
    var s := a + " " + x;
    assert s[|a|] == ' ' && s[|b|] == ' ';
    assert forall i :: 0 <= i < |a| ==> s[i] == a[i];
    assert forall i :: 0 <= i < |b| ==> s[i] == b[i];
    assert |a| == |b|;
    assert a == s[..|a|] && b == s[..|b|];
    assert x == s[|a| + 1..] && y == s[|b| + 1..];
  }

  lemma NotOneWord(a: string, b: string, y: string)
    requires Solid(a)
    ensures a != b + " " + y
  {
    assert (b + " " + y)[|b|] == ' ';
  }

  ghost predicate AllSolid(parts: seq<string>)
  {
    forall i :: 0 <= i < |parts| ==> Solid(parts[i])
  }

  /** Solid words joined with blanks can be told apart again. */
  lemma {:induction false} JoinTellsParts(a: seq<string>, b: seq<string>)
    requires AllSolid(a) && AllSolid(b) && a != [] && b != [] && Join(a) == Join(b)
    ensures a == b
  {
    if |a| > 1 && |b| > 1 {
      FirstWord(a[0], Join(a[1..]), b[0], Join(b[1..]));
      JoinTellsParts(a[1..], b[1..]);
      assert a == [a[0]] + a[1..] && b == [b[0]] + b[1..];
    } else if |a| > 1 {
      NotOneWord(b[0], a[0], Join(a[1..]));
    } else if |b| > 1 {
      NotOneWord(a[0], b[0], Join(b[1..]));
    }
  }

  function Spellings(words: seq<Word>): (parts: seq<string>)
    ensures |parts| == |words|
    ensures forall i :: 0 <= i < |words| ==> parts[i] == Spell(words[i])
  {
    seq(|words|, i requires 0 <= i < |words| => Spell(words[i]))
  }

  function Phrase(words: seq<Word>): string
  {
    Join(Spellings(words))
  }

  lemma PhraseAppend(a: seq<Word>, b: seq<Word>)
    requires a != [] && b != []
    ensures Phrase(a + b) == Phrase(a) + " " + Phrase(b)
  {
    assert Spellings(a + b) == Spellings(a) + Spellings(b);
    JoinAppend(Spellings(a), Spellings(b));
  }

  lemma PhraseOfOne(w: Word)
    ensures Phrase([w]) == Spell(w)
  {
    assert Spellings([w]) == [Spell(w)];
  }

  /** A printed phrase gives back its words. */
  lemma PhraseTellsWords(a: seq<Word>, b: seq<Word>)
    requires AllWords(a) && AllWords(b) && a != [] && b != [] && Phrase(a) == Phrase(b)
    ensures a == b
  {
    forall i | 0 <= i < |a| ensures Solid(Spellings(a)[i]) && Recognise(Spellings(a)[i]) == a[i] {
      SpellingIsSolid(a[i]);
      RecogniseSpelling(a[i]);
    }
    forall i | 0 <= i < |b| ensures Solid(Spellings(b)[i]) && Recognise(Spellings(b)[i]) == b[i] {
      SpellingIsSolid(b[i]);
      RecogniseSpelling(b[i]);
    }
    JoinTellsParts(Spellings(a), Spellings(b));
  }

  /** Parts already printed that together read as the words. */
  ghost predicate Reads(parts: seq<string>, words: seq<Word>)
  {
    Join(parts) == Phrase(words) && (parts == [] <==> words == [])
  }

  /** Adding a phrase to the parts adds its words to the whole. */
  lemma AddPart(parts: seq<string>, words: seq<Word>, more: seq<Word>)
    requires Reads(parts, words) && more != []
    ensures Reads(parts + [Phrase(more)], words + more)
  {
    if parts == [] {
      assert parts + [Phrase(more)] == [Phrase(more)] && words + more == more;
    } else {
      JoinAppend(parts, [Phrase(more)]);
      PhraseAppend(words, more);
    }
  }

  // ---- The words of a number ----

  function UnderHundred(n: nat): (words: seq<Word>)
    requires n < 100
    ensures AllWords(words)
  {
    if n >= 20 then [Ten(n / 10)] + (if n % 10 > 0 then [Unit(n % 10)] else [])
    else if n > 0 then [Unit(n)] else []
  }

  function UnderThousand(n: nat): (words: seq<Word>)
    requires n < 1000
    ensures AllWords(words)
    ensures n > 0 ==> words != []
  {
    (if n >= 100 then [Unit(n / 100), Hundred] else []) + UnderHundred(n % 100)
  }

  const CRORE := 10_000_000
  const LAKH := 100_000

  /** A group, always under a hundred, and its scale word; nothing for an empty group. */
  function Group(n: nat, scale: Word): (words: seq<Word>)
    requires n < 100 && IsWord(scale)
    ensures AllWords(words) && (n > 0 ==> words != [])
  {
    if n > 0 then UnderThousand(n) + [scale] else []
  }

  function BelowCrore(n: nat): (words: seq<Word>)
    requires n < CRORE
    ensures AllWords(words) && (n > 0 ==> words != [])
  {
    Group(n / LAKH, Lakh) + Group(n % LAKH / 1000, Thousand) + UnderThousand(n % 1000)
  }

  function IntegerWords(n: nat): (words: seq<Word>)
    ensures AllWords(words) && words != []
  {
    if n == 0 then [Zero]
    else if n < CRORE then BelowCrore(n)
    else IntegerWords(n / CRORE) + [Crore] + BelowCrore(n % CRORE)
  }

  /** The paise clause, left out when there are none. */
  function FractionWords(n: nat): (words: seq<Word>)
    requires n <= 100
    ensures AllWords(words)
  {
    if n > 0 then [And] + UnderThousand(n) + [Paise] else []
  }

  function SignWords(minus: bool): (words: seq<Word>)
    ensures AllWords(words)
  {
    if minus then [Minus] else []
  }

  /** What a line says: a sign, whole rupees, and up to a hundred paise. */
  datatype Line = Line(minus: bool, rupees: nat, paise: nat)

  function UnsignedWords(rupees: nat, paise: nat): (words: seq<Word>)
    requires paise <= 100
    ensures AllWords(words) && words != []
  {
    [Indian, Rupees] + IntegerWords(rupees) + FractionWords(paise) + [Only]
  }

  function LineWords(line: Line): (words: seq<Word>)
    requires line.paise <= 100
    ensures AllWords(words) && words != []
  {
    SignWords(line.minus) + UnsignedWords(line.rupees, line.paise)
  }

  // ---- What an amount is printed as ----

  datatype Amount = Finite(rupees: real) | NotFinite

  function Magnitude(x: real): real { if x < 0.0 then -x else x }

  /** The fraction of a rupee to the nearest paisa, half up; it can come to a hundred. */
  function NearestPaise(magnitude: real): (n: nat)
    requires magnitude >= 0.0
    ensures n <= 100
  {
    var exact := (magnitude - magnitude.Floor as real) * 100.0;
    assert 0.0 <= exact < 100.0;
    (exact + 0.5).Floor
  }

  function LineOf(a: Amount): (line: Line)
    ensures line.paise <= 100
  {
    match a
    case Finite(x) => Line(x < 0.0, Magnitude(x).Floor, NearestPaise(Magnitude(x)))
    case NotFinite => Line(false, 0, 0)
  }

  function AmountWords(a: Amount): (words: seq<Word>)
    ensures AllWords(words) && words != []
  {
    LineWords(LineOf(a))
  }

  // ---- Reading words back ----

  /** A reader of amounts, word by word. */
  datatype Reader = Reader(minus: bool, rupees: int, total: nat, current: nat)

  /** -1 in `rupees` means the paise have not been reached. */
  const START := Reader(false, -1, 0, 0)

  function Hear(r: Reader, w: Word): Reader
  {
    match w
    case Unit(n) => r.(current := r.current + n)
    case Ten(t) => r.(current := r.current + 10 * t)
    case Hundred => r.(current := 100 * r.current)
    case Thousand => r.(total := r.total + 1000 * r.current, current := 0)
    case Lakh => r.(total := r.total + 100_000 * r.current, current := 0)
    case Crore => r.(total := 10_000_000 * (r.total + r.current), current := 0)
    case And => Reader(r.minus, r.total + r.current, 0, 0)
    case Minus => r.(minus := true)
    case _ => r
  }

  function HearAll(r: Reader, words: seq<Word>): Reader
    decreases words
  {
    if words == [] then r else HearAll(Hear(r, words[0]), words[1..])
  }

  /** What the reader has heard in the end. */
  function Understood(r: Reader): Line
  {
    if r.rupees < 0 then Line(r.minus, r.total + r.current, 0) else Line(r.minus, r.rupees, r.total + r.current)
  }

  lemma {:induction false} HearAppend(r: Reader, a: seq<Word>, b: seq<Word>)
    ensures HearAll(r, a + b) == HearAll(HearAll(r, a), b)
    decreases a
  {
    if a == [] {
      assert a + b == b;
    } else {
      HearAppend(Hear(r, a[0]), a[1..], b);
      assert (a + b)[1..] == a[1..] + b;
    }
  }

  lemma {:induction false} HearOne(r: Reader, w: Word)
    ensures HearAll(r, [w]) == Hear(r, w)
  {
    assert [w][1..] == [];
  }

  lemma {:induction false} HearTwo(r: Reader, v: Word, w: Word)
    ensures HearAll(r, [v, w]) == Hear(Hear(r, v), w)
  {
    assert [v, w][1..] == [w];
    HearOne(Hear(r, v), w);
  }

  lemma {:induction false} HearUnderHundred(r: Reader, n: nat)
    requires n < 100
    ensures HearAll(r, UnderHundred(n)) == r.(current := r.current + n)
  {
    if n >= 20 && n % 10 > 0 {
      assert UnderHundred(n) == [Ten(n / 10), Unit(n % 10)];
      HearTwo(r, Ten(n / 10), Unit(n % 10));
    } else if n >= 20 {
      assert UnderHundred(n) == [Ten(n / 10)];
      HearOne(r, Ten(n / 10));
    } else if n > 0 {
      HearOne(r, Unit(n));
    }
  }

  lemma {:induction false} HearUnderThousand(r: Reader, n: nat)
    requires n < 1000 && r.current == 0
    ensures HearAll(r, UnderThousand(n)) == r.(current := n)
  {
    var hundreds: seq<Word> := if n >= 100 then [Unit(n / 100), Hundred] else [];
    HearAppend(r, hundreds, UnderHundred(n % 100));
    if n >= 100 {
      HearTwo(r, Unit(n / 100), Hundred);
    }
    HearUnderHundred(HearAll(r, hundreds), n % 100);
  }

  lemma {:induction false} HearGroup(r: Reader, n: nat, scale: Word)
    requires n < 100 && r.current == 0 && (scale == Lakh || scale == Thousand)
    ensures HearAll(r, Group(n, scale)) == r.(total := r.total + n * (if scale == Lakh then LAKH else 1000))
  {
    if n > 0 {
      HearAppend(r, UnderThousand(n), [scale]);
      HearUnderThousand(r, n);
      HearOne(r.(current := n), scale);
    }
  }

  lemma Digits(n: nat)
    ensures n == n / LAKH * LAKH + n % LAKH / 1000 * 1000 + n % 1000
  {
    var m := n % LAKH;
    assert m == m / 1000 * 1000 + m % 1000;
    assert n % 1000 == m % 1000;
  }

  lemma {:induction false} HearBelowCrore(r: Reader, n: nat)
    requires n < CRORE && r.current == 0
    ensures HearAll(r, BelowCrore(n)) == r.(total := r.total + (n - n % 1000), current := n % 1000)
  {
    var lakhs, thousands := Group(n / LAKH, Lakh), Group(n % LAKH / 1000, Thousand);
    HearAppend(r, lakhs + thousands, UnderThousand(n % 1000));
    HearAppend(r, lakhs, thousands);
    HearGroup(r, n / LAKH, Lakh);
    var r1 := HearAll(r, lakhs);
    HearGroup(r1, n % LAKH / 1000, Thousand);
    HearUnderThousand(HearAll(r1, thousands), n % 1000);
    Digits(n);
  }

  lemma {:induction false} HearInteger(r: Reader, n: nat)
    requires r.total == 0 && r.current == 0
    ensures var h := HearAll(r, IntegerWords(n));
      h.total + h.current == n && h.minus == r.minus && h.rupees == r.rupees
  {
    if n == 0 {
      HearOne(r, Zero);
    } else if n < CRORE {
      HearBelowCrore(r, n);
    } else {
      var crores := IntegerWords(n / CRORE);
      HearInteger(r, n / CRORE);
      HearAppend(r, crores + [Crore], BelowCrore(n % CRORE));
      HearAppend(r, crores, [Crore]);
      HearOne(HearAll(r, crores), Crore);
      HearBelowCrore(HearAll(r, crores + [Crore]), n % CRORE);
    }
  }

  lemma {:induction false} HearFraction(r: Reader, n: nat)
    requires n <= 100
    ensures HearAll(r, FractionWords(n)) == if n > 0 then Reader(r.minus, r.total + r.current, 0, n) else r
  {
    if n > 0 {
      var r1 := Hear(r, And);
      HearOne(r, And);
      HearAppend(r, [And], UnderThousand(n));
      HearUnderThousand(r1, n);
      HearAppend(r, [And] + UnderThousand(n), [Paise]);
      HearOne(r1.(current := n), Paise);
    }
  }

  lemma {:induction false} HearUnsigned(r: Reader, rupees: nat, paise: nat)
    requires r.rupees == -1 && r.total == 0 && r.current == 0 && paise <= 100
    ensures Understood(HearAll(r, UnsignedWords(rupees, paise))) == Line(r.minus, rupees, paise)
  {
    var whole, fraction := IntegerWords(rupees), FractionWords(paise);
    HearAppend(r, [Indian, Rupees] + whole + fraction, [Only]);
    HearAppend(r, [Indian, Rupees] + whole, fraction);
    HearAppend(r, [Indian, Rupees], whole);
    HearTwo(r, Indian, Rupees);
    HearInteger(r, rupees);
    var r1 := HearAll(r, whole);
    HearFraction(r1, paise);
    HearOne(HearAll(r1, fraction), Only);
  }

  /** The words of a line, heard from the start, give back its sign, its rupees and its paise. */
  lemma LineIsUnderstood(line: Line)
    requires line.paise <= 100
    ensures Understood(HearAll(START, LineWords(line))) == line
  {
    HearAppend(START, SignWords(line.minus), UnsignedWords(line.rupees, line.paise));
    HearOne(START, Minus);
    HearUnsigned(HearAll(START, SignWords(line.minus)), line.rupees, line.paise);
  }

  /** Two amounts print the same text exactly when sign, whole rupees and nearest paise are the same. */
  lemma SameTextExactly(a: Amount, b: Amount)
    ensures Phrase(AmountWords(a)) == Phrase(AmountWords(b)) <==> LineOf(a) == LineOf(b)
  {
    if Phrase(AmountWords(a)) == Phrase(AmountWords(b)) {
      PhraseTellsWords(AmountWords(a), AmountWords(b));
      LineIsUnderstood(LineOf(a));
      LineIsUnderstood(LineOf(b));
    }
  }

  /** A whole number of paise, as rupees. */
  function FromPaise(paise: int): Amount { Finite(paise as real / 100.0) }

  lemma WholePaise(paise: nat)
    ensures var x := paise as real / 100.0; x.Floor == paise / 100 && NearestPaise(x) == paise % 100
  {
    var x, rupees, rest := paise as real / 100.0, paise / 100, paise % 100;
    assert paise == 100 * rupees + rest;
    assert x == rupees as real + rest as real / 100.0;
    assert x.Floor == rupees;
    assert (x - rupees as real) * 100.0 == rest as real;
  }

  lemma LineOfPaise(paise: int)
    ensures var n := if paise < 0 then -paise else paise;
      LineOf(FromPaise(paise)) == Line(paise < 0, n / 100, n % 100)
  {
    WholePaise(if paise < 0 then -paise else paise);
  }

  /** Two different whole-paise amounts never print the same text. */
  lemma DifferentAmountsDifferentText(a: int, b: int)
    requires Phrase(AmountWords(FromPaise(a))) == Phrase(AmountWords(FromPaise(b)))
    ensures a == b
  {
    SameTextExactly(FromPaise(a), FromPaise(b));
    LineOfPaise(a);
    LineOfPaise(b);
  }

  /** The paise printed are the nearest to the fraction of a rupee, the half going up. */
  lemma NearestExactly(magnitude: real, n: nat)
    requires magnitude >= 0.0
    ensures NearestPaise(magnitude) == n <==>
      n as real - 0.5 <= (magnitude - magnitude.Floor as real) * 100.0 < n as real + 0.5
  {
  }

  /** A hundred paise are printed, instead of one more rupee, exactly from 99.5 paise on. */
  lemma HundredPaise(x: real)
    ensures LineOf(Finite(x)).paise == 100 <==> Magnitude(x) - Magnitude(x).Floor as real >= 0.995
  {
  }

  // ---- The printer ----

  lemma PhraseOfTwo(v: Word, w: Word)
    ensures Phrase([v, w]) == Spell(v) + " " + Spell(w)
  {
    PhraseAppend([v], [w]);
    assert [v] + [w] == [v, w];
    PhraseOfOne(v);
    PhraseOfOne(w);
  }

  /** Tens and units, added to what is printed already. */
  method AddUnderHundred(parts: seq<string>, value: nat, ghost words: seq<Word>) returns (longer: seq<string>)
    requires value < 100 && Reads(parts, words)
    ensures Reads(longer, words + UnderHundred(value))
  {
    longer := parts;
    var n := value;
    if n >= 20 {
      PhraseOfOne(Ten(n / 10));
      AddPart(longer, words, [Ten(n / 10)]);
      longer := longer + [TENS[n / 10]];
      n := n % 10;
      if n > 0 {
        PhraseOfOne(Unit(n));
        AddPart(longer, words + [Ten(value / 10)], [Unit(n)]);
        longer := longer + [ONES[n]];
        assert words + [Ten(value / 10)] + [Unit(n)] == words + UnderHundred(value);
      } else {
        assert words + [Ten(value / 10)] == words + UnderHundred(value);
      }
    } else if n > 0 {
      PhraseOfOne(Unit(n));
      AddPart(longer, words, [Unit(n)]);
      longer := longer + [ONES[n]];
    } else {
      assert words + UnderHundred(value) == words;
    }
  }

  method UnderThousandText(value: nat) returns (text: string)
    requires value < 1000
    ensures text == Phrase(UnderThousand(value))
  {
    var n := value;
    var parts: seq<string>;
    ghost var words: seq<Word>;
    if n >= 100 {
      parts, words := [ONES[n / 100] + " Hundred"], [Unit(n / 100), Hundred];
      HundredsRead(n / 100);
      n := n % 100;
    } else {
      parts, words := [], [];
      NothingRead();
    }
    assert words + UnderHundred(n) == UnderThousand(value);
    parts := AddUnderHundred(parts, n, words);
    text := Join(parts);
  }

  lemma NothingRead()
    ensures Reads([], [])
  {
    assert Spellings([]) == [];
  }

  lemma HundredsRead(h: nat)
    requires 1 <= h < 10
    ensures Reads([ONES[h] + " Hundred"], [Unit(h), Hundred])
  {
    PhraseOfTwo(Unit(h), Hundred);
  }

  /** Adds one group with its scale word, when there is anything in the group. */
  method AddGroup(segments: seq<string>, n: nat, scale: Word, ghost words: seq<Word>) returns (longer: seq<string>)
    requires n < 100 && IsWord(scale) && Reads(segments, words)
    ensures Reads(longer, words + Group(n, scale))
  {
    longer := segments;
    if n > 0 {
      var t := UnderThousandText(n);
      PhraseAppend(UnderThousand(n), [scale]);
      PhraseOfOne(scale);
      AddPart(segments, words, Group(n, scale));
      longer := segments + [t + " " + Spell(scale)];
    } else {
      assert words + Group(n, scale) == words;
    }
  }

  lemma Regroup<T>(a: seq<T>, b: seq<T>, c: seq<T>, d: seq<T>)
    ensures a + (b + c + d) == a + b + c + d
  {
  }

  /** Adds what is left under a thousand, when there is anything left. */
  method AddRest(segments: seq<string>, rest: nat, ghost words: seq<Word>) returns (longer: seq<string>)
    requires rest < 1000 && Reads(segments, words)
    ensures Reads(longer, words + UnderThousand(rest))
  {
    longer := segments;
    if rest > 0 {
      var t := UnderThousandText(rest);
      AddPart(segments, words, UnderThousand(rest));
      longer := segments + [t];
    } else {
      assert words + UnderThousand(rest) == words;
    }
  }

  /** The lakhs, thousands and the rest, added to what is printed already. */
  method AddGroups(segments: seq<string>, lakh: nat, thousand: nat, rest: nat, ghost words: seq<Word>)
      returns (longer: seq<string>)
    requires lakh < 100 && thousand < 100 && rest < 1000 && Reads(segments, words)
    ensures Reads(longer, words + (Group(lakh, Lakh) + Group(thousand, Thousand) + UnderThousand(rest)))
  {
    ghost var lakhs, thousands := Group(lakh, Lakh), Group(thousand, Thousand);
    longer := AddGroup(segments, lakh, Lakh, words);
    longer := AddGroup(longer, thousand, Thousand, words + lakhs);
    longer := AddRest(longer, rest, words + lakhs + thousands);
    Regroup(words, lakhs, thousands, UnderThousand(rest));
  }

  method AddBelowCrore(segments: seq<string>, n: nat, ghost words: seq<Word>) returns (longer: seq<string>)
    requires n < CRORE && Reads(segments, words)
    ensures Reads(longer, words + BelowCrore(n))
  {
    longer := AddGroups(segments, n / LAKH, n % LAKH / 1000, n % 1000, words);
  }

  method IntegerText(value: nat) returns (text: string)
    ensures text == Phrase(IntegerWords(value))
  {
    if value == 0 {
      PhraseOfOne(Zero);
      return "Zero";
    }
    var crore := value / CRORE;
    var segments: seq<string>;
    ghost var words: seq<Word>;
    if crore > 0 {
      var t := IntegerText(crore);
      segments, words := [t + " Crore"], IntegerWords(crore) + [Crore];
      CroresRead(IntegerWords(crore), t);
    } else {
      segments, words := [], [];
      NothingRead();
    }
    CroresFirst(value, words);
    segments := AddBelowCrore(segments, value % CRORE, words);
    text := Join(segments);
  }

  lemma {:induction false} CroresFirst(value: nat, words: seq<Word>)
    requires value > 0
    requires words == if value / CRORE > 0 then IntegerWords(value / CRORE) + [Crore] else []
    ensures IntegerWords(value) == words + BelowCrore(value % CRORE)
  {
    if value < CRORE {
      assert words + BelowCrore(value) == BelowCrore(value);
    }
  }

  lemma CroresRead(crores: seq<Word>, text: string)
    requires crores != [] && text == Phrase(crores)
    ensures Reads([text + " Crore"], crores + [Crore])
  {
    PhraseAppend(crores, [Crore]);
    PhraseOfOne(Crore);
  }

  lemma PhraseBetween(v: Word, words: seq<Word>, w: Word)
    requires words != []
    ensures Phrase([v] + words + [w]) == Spell(v) + " " + Phrase(words) + " " + Spell(w)
  {
    PhraseAppend([v], words);
    PhraseAppend([v] + words, [w]);
    PhraseOfOne(v);
    PhraseOfOne(w);
  }

  /** Words joined on to a line after a blank, or the line as it is. */
  ghost predicate JoinsOn(phrase: seq<Word> -> string, line: seq<Word>, more: seq<Word>)
  {
    phrase(line + more) == phrase(line) + (if more == [] then "" else " " + phrase(more))
  }

  lemma PhraseJoinsOn(line: seq<Word>, more: seq<Word>)
    requires line != []
    ensures JoinsOn(Phrase, line, more)
  {
    if more == [] {
      assert line + more == line;
    } else {
      PhraseAppend(line, more);
    }
  }

  /** Four phrases joined on one after the other. */
  lemma FourJoined(phrase: seq<Word> -> string, a: seq<Word>, b: seq<Word>, c: seq<Word>, d: seq<Word>)
    requires b != [] && d != []
    requires JoinsOn(phrase, a, b) && JoinsOn(phrase, a + b, c) && JoinsOn(phrase, a + b + c, d)
    ensures phrase(a + b + c + d) ==
      phrase(a) + " " + phrase(b) + (if c == [] then "" else " " + phrase(c)) + " " + phrase(d)
  {
  }

  /** The line as the template builds it, from any rupee and paise phrases. */
  lemma RupeeLine(integer: seq<Word>, fraction: seq<Word>)
    requires integer != []
    ensures Phrase([Indian, Rupees] + integer + fraction + [Only])
      == Phrase([Indian, Rupees]) + " " + Phrase(integer)
         + (if fraction == [] then "" else " " + Phrase(fraction)) + " " + Phrase([Only])
  {
    PhraseJoinsOn([Indian, Rupees], integer);
    PhraseJoinsOn([Indian, Rupees] + integer, fraction);
    PhraseJoinsOn([Indian, Rupees] + integer + fraction, [Only]);
    FourJoined(Phrase, [Indian, Rupees], integer, fraction, [Only]);
  }

  lemma SignInFront(minus: bool, line: seq<Word>)
    requires line != []
    ensures Phrase(SignWords(minus) + line) == (if minus then "Minus" + " " else "") + Phrase(line)
  {
    if minus {
      PhraseAppend([Minus], line);
      PhraseOfOne(Minus);
    } else {
      assert SignWords(minus) + line == line;
    }
  }

  /** A line put together from its rupee and paise texts. */
  lemma LineText(line: Line)
    requires line.paise <= 100
    ensures
      var rupeeWords, fraction := Phrase(IntegerWords(line.rupees)), FractionWords(line.paise);
      var paiseWords := if fraction == [] then "" else " " + Phrase(fraction);
      Phrase(LineWords(line)) ==
        (if line.minus then "Minus" + " " else "")
        + ("Indian" + " " + "Rupees" + " " + rupeeWords + paiseWords + " " + "Only")
  {
    RupeeLine(IntegerWords(line.rupees), FractionWords(line.paise));
    PhraseOfTwo(Indian, Rupees);
    PhraseOfOne(Only);
    SignInFront(line.minus, UnsignedWords(line.rupees, line.paise));
  }

  lemma ZeroLine()
    ensures Phrase(LineWords(Line(false, 0, 0))) == "Indian" + " " + "Rupees" + " " + "Zero" + " " + "Only"
  {
    PhraseOfOne(Zero);
    LineText(Line(false, 0, 0));
  }

  /** An amount spelled out in full, as an invoice shows it. */
  method AmountText(amount: Amount) returns (text: string)
    ensures text == Phrase(AmountWords(amount))
  {
    if amount.NotFinite? {
      ZeroLine();
      return "Indian" + " " + "Rupees" + " " + "Zero" + " " + "Only";
    }
    var num := amount.rupees;
    var abs := Magnitude(num);
    var rupees, paise := abs.Floor, NearestPaise(abs);
    var rupeeWords := IntegerText(rupees);
    var paiseWords := PaiseText(paise);
    LineText(LineOf(amount));
    text := "Indian" + " " + "Rupees" + " " + rupeeWords + paiseWords + " " + "Only";
    text := (if num < 0.0 then "Minus" + " " else "") + text;
  }

  method PaiseText(n: nat) returns (text: string)
    requires n <= 100
    ensures text == if FractionWords(n) == [] then "" else " " + Phrase(FractionWords(n))
  {
    if n == 0 {
      return "";
    }
    var t := UnderThousandText(n);
    PhraseBetween(And, UnderThousand(n), Paise);
    text := " " + ("and" + " " + t + " " + "Paise");
  }

  // ---- A known line ----

  /** One lakh twenty thousand five hundred. */
  lemma SampleRupees()
    ensures IntegerWords(120_500) == [Unit(1), Lakh, Ten(2), Thousand, Unit(5), Hundred]
  {
    assert Group(1, Lakh) == [Unit(1), Lakh];
    assert Group(20, Thousand) == [Ten(2), Thousand];
    assert UnderThousand(500) == [Unit(5), Hundred];
    assert BelowCrore(120_500) == Group(1, Lakh) + Group(20, Thousand) + UnderThousand(500);
  }

  lemma SamplePaise()
    ensures FractionWords(50) == [And, Ten(5), Paise]
  {
    assert UnderThousand(50) == [Ten(5)];
  }

  lemma SampleGlue(whole: seq<Word>, fraction: seq<Word>)
    requires whole == [Unit(1), Lakh, Ten(2), Thousand, Unit(5), Hundred] && fraction == [And, Ten(5), Paise]
    ensures [Indian, Rupees] + whole + fraction + [Only] ==
      [Indian, Rupees, Unit(1), Lakh, Ten(2), Thousand, Unit(5), Hundred, And, Ten(5), Paise, Only]
  {
  }

  lemma SampleWords()
    ensures LineWords(Line(false, 120_500, 50)) ==
      [Indian, Rupees, Unit(1), Lakh, Ten(2), Thousand, Unit(5), Hundred, And, Ten(5), Paise, Only]
  {
    var whole, fraction := IntegerWords(120_500), FractionWords(50);
    SampleRupees();
    SamplePaise();
    SampleGlue(whole, fraction);
    assert SignWords(false) + UnsignedWords(120_500, 50) == UnsignedWords(120_500, 50);
  }

  /** The example the source documents, 1,20,500.50 rupees, word by word. */
  lemma DocumentedLine()
    ensures AmountWords(FromPaise(12_050_050)) ==
      [Indian, Rupees, Unit(1), Lakh, Ten(2), Thousand, Unit(5), Hundred, And, Ten(5), Paise, Only]
  {
    LineOfPaise(12_050_050);
    SampleWords();
  }

  /** And how its words are spelled. */
  lemma DocumentedSpelling()
    ensures Spell(Indian) == "Indian" && Spell(Rupees) == "Rupees" && Spell(Unit(1)) == "One" && Spell(Lakh) == "Lakh"
    ensures Spell(Ten(2)) == "Twenty" && Spell(Thousand) == "Thousand" && Spell(Unit(5)) == "Five"
    ensures Spell(Hundred) == "Hundred" && Spell(And) == "and" && Spell(Ten(5)) == "Fifty"
    ensures Spell(Paise) == "Paise" && Spell(Only) == "Only" && Spell(Crore) == "Crore" && Spell(Minus) == "Minus"
  {
  }
}

/**
 * Date keys, and when a repeated check falls due, is overdue, and blocks
 * (packages/shared/src/periodic-checks.ts). Keys are YYYY-MM-DD strings; the source prints years
 * without padding, so what it prints is a key again only in the years 1000 to 9999.
 */
module PeriodicChecks {
  import opened Calendar
  import opened Common

  // ---- Strings of digits and their order ----

  /** The order the source compares strings by. */
  predicate Less(a: string, b: string)
  {
    b != "" && (a == "" || a[0] < b[0] || (a[0] == b[0] && Less(a[1..], b[1..])))
  }

  function Power(width: nat): nat { if width == 0 then 1 else 10 * Power(width - 1) }

  /** A number padded with zeros to a width. */
  function Padded(n: nat, width: nat): (s: string)
    ensures |s| == width
  {
    if width == 0 then "" else Padded(n / 10, width - 1) + [DigitChar(n % 10)]
  }

  function Value(c: char): nat { if IsDigit(c) then DigitValue(c) else 0 }

  function Number(s: string): nat
  {
    if s == "" then 0 else 10 * Number(s[..|s| - 1]) + Value(s[|s| - 1])
  }

  lemma {:induction false} NumberOfPadded(n: nat, width: nat)
    requires n < Power(width)
    ensures Number(Padded(n, width)) == n
  {
    if width > 0 {
      NumberOfPadded(n / 10, width - 1);
      var s := Padded(n, width);
      assert s[..width - 1] == Padded(n / 10, width - 1);
    }
  }

  /** Strings of one length compare by their first parts, then by the rest. */
  lemma {:induction false} LessAppend(a: string, u: string, b: string, v: string)
    requires |a| == |b|
    ensures Less(a + u, b + v) <==> Less(a, b) || (a == b && Less(u, v))
  {
    if a == "" {
      assert a + u == u && b + v == v;
    } else {
      LessAppend(a[1..], u, b[1..], v);
      assert (a + u)[1..] == a[1..] + u && (b + v)[1..] == b[1..] + v;
      assert a == b <==> a[0] == b[0] && a[1..] == b[1..] by {
        assert a == [a[0]] + a[1..] && b == [b[0]] + b[1..];
      }
    }
  }

  lemma LessOfOne(c: char, d: char)
    ensures Less([c], [d]) <==> c < d
  {
    assert [c][1..] == "" && [d][1..] == "";
  }

  /** Padded numbers compare as numbers do. */
  lemma {:induction false} PaddedOrder(n: nat, m: nat, width: nat)
    requires n < Power(width) && m < Power(width)
    ensures Less(Padded(n, width), Padded(m, width)) <==> n < m
    ensures Padded(n, width) == Padded(m, width) ==> n == m
  {
    if width > 0 {
      PaddedOrder(n / 10, m / 10, width - 1);
      LessAppend(Padded(n / 10, width - 1), [DigitChar(n % 10)], Padded(m / 10, width - 1), [DigitChar(m % 10)]);
      LessOfOne(DigitChar(n % 10), DigitChar(m % 10));
    }
    NumberOfPadded(n, width);
    NumberOfPadded(m, width);
  }

  // ---- Keys ----

  predicate IsKeyDate(d: Date) { GREGORIAN.IsDate(d) && 0 <= d.year <= 9999 }

  function Key(d: Date): (key: string)
    requires IsKeyDate(d)
    ensures |key| == 10
  {
    Padded(d.year, 4) + ("-" + (Padded(d.month, 2) + ("-" + Padded(d.day, 2))))
  }

  function ParseKey(key: string): Date
    requires |key| == 10
  {
    Date(Number(key[..4]), Number(key[5..7]), Number(key[8..]))
  }

  predicate IsKey(key: string)
  {
    |key| == 10 && IsKeyDate(ParseKey(key)) && Key(ParseKey(key)) == key
  }

  /** A key reads back as the date it was made from. */
  lemma ParseOfKey(d: Date)
    requires IsKeyDate(d)
    ensures ParseKey(Key(d)) == d && IsKey(Key(d))
  {
    var key := Key(d);
    assert Power(2) == 100 && Power(4) == 10000;
    NumberOfPadded(d.year, 4);
    NumberOfPadded(d.month, 2);
    NumberOfPadded(d.day, 2);
    assert key[..4] == Padded(d.year, 4);
    assert key[5..7] == Padded(d.month, 2);
    assert key[8..] == Padded(d.day, 2);
  }

  /** Hyphens after the year and the month, whose numbers are where they are read from. */
  lemma KeyShape(d: Date)
    requires IsKeyDate(d)
    ensures Key(d)[4] == '-' && Key(d)[7] == '-'
    ensures Number(Key(d)[..4]) == d.year && Number(Key(d)[5..7]) == d.month && Number(Key(d)[8..]) == d.day
  {
    ParseOfKey(d);
  }

  function DayOfKey(key: string): int
    requires IsKey(key)
  {
    GREGORIAN.DayNumber(ParseKey(key))
  }

  lemma DateOrder(a: Date, b: Date)
    requires IsKeyDate(a) && IsKeyDate(b)
    ensures Less(Key(a), Key(b)) <==> Earlier(a, b)
  {
    assert Power(2) == 100 && Power(4) == 10000;
    PaddedOrder(a.year, b.year, 4);
    PaddedOrder(a.month, b.month, 2);
    PaddedOrder(a.day, b.day, 2);
    var dayA, dayB := "-" + Padded(a.day, 2), "-" + Padded(b.day, 2);
    LessAppend("-", Padded(a.day, 2), "-", Padded(b.day, 2));
    LessOfOne('-', '-');
    LessAppend(Padded(a.month, 2), dayA, Padded(b.month, 2), dayB);
    var monthA, monthB := Padded(a.month, 2) + dayA, Padded(b.month, 2) + dayB;
    LessAppend("-", monthA, "-", monthB);
    LessAppend(Padded(a.year, 4), "-" + monthA, Padded(b.year, 4), "-" + monthB);
  }

  /** Comparing keys as strings compares the days they name. */
  lemma {:induction false} KeyOrder(a: string, b: string)
    requires IsKey(a) && IsKey(b)
    ensures Less(a, b) <==> DayOfKey(a) < DayOfKey(b)
  {
    DateOrder(ParseKey(a), ParseKey(b));
    GREGORIAN.OrderIsChronological(ParseKey(a), ParseKey(b));
  }

  // ---- Dates as the source prints them ----

  /** A number in as many digits as it takes. */
  function Digits(n: nat): (s: string)
    ensures |s| >= 1 && (n < 10 <==> |s| < 2) && (n < 100 <==> |s| < 3)
    ensures (n < 1000 <==> |s| < 4) && (n < 10000 <==> |s| < 5)
  {
    if n < 10 then [DigitChar(n)] else Digits(n / 10) + [DigitChar(n % 10)]
  }

  function YearText(year: int): string { if year < 0 then "-" + Digits(-year) else Digits(year) }

  function DateText(d: Date): string
    requires GREGORIAN.IsDate(d)
  {
    YearText(d.year) + ("-" + (Padded(d.month, 2) + ("-" + Padded(d.day, 2))))
  }

  lemma {:induction false} DigitsArePadded(n: nat, width: nat)
    requires |Digits(n)| == width
    ensures Digits(n) == Padded(n, width)
  {
    if n >= 10 {
      DigitsArePadded(n / 10, width - 1);
    } else {
      assert Padded(n, 1) == Padded(n / 10, 0) + [DigitChar(n % 10)];
    }
  }

  lemma {:induction false} PaddedStartsWithDigit(n: nat, width: nat)
    requires width > 0
    ensures IsDigit(Padded(n, width)[0])
  {
    if width > 1 {
      PaddedStartsWithDigit(n / 10, width - 1);
    }
  }

  lemma KeyStartsWithDigit(key: string)
    ensures IsKey(key) ==> IsDigit(key[0])
  {
    if IsKey(key) {
      PaddedStartsWithDigit(ParseKey(key).year, 4);
    }
  }

  /** A printed date is a key exactly in the years that take four digits. */
  lemma PrintedIsKey(d: Date)
    requires GREGORIAN.IsDate(d)
    ensures IsKey(DateText(d)) <==> 1000 <= d.year <= 9999
    ensures 1000 <= d.year <= 9999 ==> DateText(d) == Key(d)
  {
    var text := DateText(d);
    if 1000 <= d.year <= 9999 {
      DigitsArePadded(d.year, 4);
      ParseOfKey(d);
    } else if d.year < 0 {
      assert text[0] == '-';
      KeyStartsWithDigit(text);
    }
  }

  // ---- Arithmetic on keys ----

  /** Day t has a key that the source prints as one. */
  predicate HasKey(t: int) { 1000 <= GREGORIAN.DateOf(t).year <= 9999 }

  function KeyOfDay(t: int): (key: string)
    requires HasKey(t)
    ensures IsKey(key) && DayOfKey(key) == t
  {
    ParseOfKey(GREGORIAN.DateOf(t));
    Key(GREGORIAN.DateOf(t))
  }

  /** The key so many days on. */
  function AddDays(key: string, days: int): (r: string)
    requires IsKey(key) && HasKey(DayOfKey(key) + days)
    ensures IsKey(r) && DayOfKey(r) == DayOfKey(key) + days
  {
    KeyOfDay(DayOfKey(key) + days)
  }

  /** The key so many months on is still one a key can name. */
  predicate MonthsFit(key: string, months: int)
    requires IsKey(key)
  {
    1000 <= GREGORIAN.AddMonths(ParseKey(key), months).year <= 9999
  }

  function AddMonths(key: string, months: int): (r: string)
    requires IsKey(key) && MonthsFit(key, months)
    ensures IsKey(r) && ParseKey(r) == GREGORIAN.AddMonths(ParseKey(key), months)
  {
    ParseOfKey(GREGORIAN.AddMonths(ParseKey(key), months));
    Key(GREGORIAN.AddMonths(ParseKey(key), months))
  }

  /** The day so many days on, as printed: a key again exactly if its year takes four digits. */
  method AddDaysToDateKey(key: string, days: int) returns (r: string)
    requires IsKey(key)
    ensures r == DateText(GREGORIAN.DateOf(DayOfKey(key) + days))
    ensures IsKey(r) <==> HasKey(DayOfKey(key) + days)
    ensures HasKey(DayOfKey(key) + days) ==> r == AddDays(key, days)
  {
    var d := MoveDays(GREGORIAN, ParseKey(key), days);
    GREGORIAN.DateIsUnique(d);
    PrintedIsKey(d);
    r := DateText(d);
  }

  /** The date so many months on, likewise. */
  method AddMonthsToDateKey(key: string, months: int) returns (r: string)
    requires IsKey(key)
    ensures r == DateText(GREGORIAN.AddMonths(ParseKey(key), months))
    ensures IsKey(r) <==> MonthsFit(key, months)
    ensures MonthsFit(key, months) ==> r == AddMonths(key, months)
  {
    var d := MoveMonths(GREGORIAN, ParseKey(key), months);
    PrintedIsKey(d);
    r := DateText(d);
  }

  lemma KeysHaveKeys(key: string)
    requires IsKey(key) && HasKey(DayOfKey(key))
    ensures KeyOfDay(DayOfKey(key)) == key
  {
    GREGORIAN.DateIsUnique(ParseKey(key));
  }

  /** Adding days is additive. */
  lemma AddDaysAdditive(key: string, m: int, n: int)
    requires IsKey(key) && HasKey(DayOfKey(key) + m) && HasKey(DayOfKey(key) + (m + n))
    ensures HasKey(DayOfKey(AddDays(key, m)) + n)
    ensures AddDays(AddDays(key, m), n) == AddDays(key, m + n)
  {
    var t := DayOfKey(key);
    assert DayOfKey(AddDays(key, m)) + n == t + (m + n);
  }

  /** Adding as many days back undoes it. */
  lemma AddDaysInverts(key: string, n: int)
    requires IsKey(key) && HasKey(DayOfKey(key)) && HasKey(DayOfKey(key) + n)
    ensures HasKey(DayOfKey(AddDays(key, n)) + (0 - n))
    ensures AddDays(AddDays(key, n), 0 - n) == key
  {
    KeysHaveKeys(key);
    assert DayOfKey(AddDays(key, n)) + (0 - n) == DayOfKey(key);
  }

  /** Adding months lands in the month meant, on the same day or on that month's last. */
  lemma AddMonthsLands(key: string, months: int)
    requires IsKey(key) && MonthsFit(key, months)
    ensures var d, r := ParseKey(key), ParseKey(AddMonths(key, months));
      && MonthIndex(r) == MonthIndex(d) + months
      && r.day <= d.day
      && (r.day < d.day ==> r.day == GREGORIAN.DaysInMonth(r.month, r.year))
  {
  }

  /** Later keys and more months never give an earlier key. */
  lemma {:induction false} AddMonthsKeepsOrder(a: string, b: string, m: int, n: int)
    requires IsKey(a) && IsKey(b) && !Less(b, a) && m <= n && MonthsFit(a, m) && MonthsFit(b, n)
    ensures !Less(AddMonths(b, n), AddMonths(a, m))
  {
    DateOrder(ParseKey(b), ParseKey(a));
    GREGORIAN.AddMonthsMonotone(ParseKey(a), ParseKey(b), m, n);
    DateOrder(ParseKey(AddMonths(b, n)), ParseKey(AddMonths(a, m)));
  }

  // ---- Standing on one check, in day numbers ----

  datatype CheckType = Bgv | Police | Credit | Identity

  datatype RecheckStatus = UpToDate | DueSoon | Due | Blocked

  function Rank(s: RecheckStatus): nat
  {
    match s
    case UpToDate => 0
    case DueSoon => 1
    case Due => 2
    case Blocked => 3
  }

  /** A policy; D is how its one date is written. */
  datatype Policy<D> = Policy(
    intervalMonths: CheckType -> int, graceDays: int, remindDaysBefore: int, firstRoundDueOn: D)

  /** What the person brings to a check: when they were last checked, and their earliest expiry. */
  datatype History<D> = History(lastCheckedOn: Option<D>, earliestIdentityExpiry: Option<D>)

  function AtLeast(floor: int, n: int): int { if n >= floor then n else floor }

  /** The day so many months after a day. */
  function MonthsAfter(t: int, months: int): int
  {
    GREGORIAN.DayNumber(GREGORIAN.AddMonths(GREGORIAN.DateOf(t), months))
  }

  lemma MonthsAfterMonotone(t: int, u: int, months: int)
    requires t <= u
    ensures MonthsAfter(t, months) <= MonthsAfter(u, months)
  {
    var a, b := GREGORIAN.DateOf(t), GREGORIAN.DateOf(u);
    GREGORIAN.OrderIsChronological(b, a);
    GREGORIAN.AddMonthsMonotone(a, b, months, months);
    GREGORIAN.OrderIsChronological(GREGORIAN.AddMonths(b, months), GREGORIAN.AddMonths(a, months));
  }

  /** When the check falls due by the interval, or on the first round. */
  function ScheduledOn(kind: CheckType, h: History<int>, p: Policy<int>): int
  {
    if h.lastCheckedOn.Some? then MonthsAfter(h.lastCheckedOn.value, AtLeast(1, p.intervalMonths(kind)))
    else p.firstRoundDueOn
  }

  /** An identity document expires after the last check and before the check is due anyway. */
  predicate ExpiryComesFirst(kind: CheckType, h: History<int>, due: int)
  {
    && kind == Identity && h.earliestIdentityExpiry.Some?
    && (h.lastCheckedOn.None? || h.lastCheckedOn.value < h.earliestIdentityExpiry.value)
    && h.earliestIdentityExpiry.value < due
  }

  /** The scheduled day, or the expiry that comes before it. */
  function DueGiven(kind: CheckType, h: History<int>, scheduled: int): int
  {
    if ExpiryComesFirst(kind, h, scheduled) then h.earliestIdentityExpiry.value else scheduled
  }

  function DueOn(kind: CheckType, h: History<int>, p: Policy<int>): int
  {
    DueGiven(kind, h, ScheduledOn(kind, h, p))
  }

  function StatusOn(today: int, due: int, graceDays: int, remindDaysBefore: int): RecheckStatus
  {
    if today >= due + AtLeast(0, graceDays) then Blocked
    else if today >= due then Due
    else if today >= due - AtLeast(0, remindDaysBefore) then DueSoon
    else UpToDate
  }

  function Status(kind: CheckType, h: History<int>, p: Policy<int>, today: int): RecheckStatus
  {
    StatusOn(today, DueOn(kind, h, p), p.graceDays, p.remindDaysBefore)
  }

  function Larger(a: int, b: int): int { if a >= b then a else b }

  /** The day each status begins: a reminder so many days before it is due, the day itself, and after the grace days. */
  lemma StatusBegins(today: int, due: int, graceDays: int, remindDaysBefore: int)
    ensures var s := StatusOn(today, due, graceDays, remindDaysBefore);
      var remind, block := due - Larger(0, remindDaysBefore), due + Larger(0, graceDays);
      && (s == UpToDate <==> today < remind)
      && (s == DueSoon <==> remind <= today < due)
      && (s == Due <==> due <= today < block)
      && (s == Blocked <==> block <= today)
  {
  }

  /**
   * A check is due on the first-round day if there was none before; otherwise in the month so many
   * months after the last, at least one, on the same day or that month's last.
   */
  lemma ScheduledExactly(kind: CheckType, h: History<int>, p: Policy<int>)
    ensures h.lastCheckedOn.None? ==> ScheduledOn(kind, h, p) == p.firstRoundDueOn
    ensures h.lastCheckedOn.Some? ==>
      var from, due := GREGORIAN.DateOf(h.lastCheckedOn.value), GREGORIAN.DateOf(ScheduledOn(kind, h, p));
      && MonthIndex(due) == MonthIndex(from) + Larger(1, p.intervalMonths(kind))
      && due.day <= from.day
      && (due.day < from.day ==> due.day == GREGORIAN.DaysInMonth(due.month, due.year))
  {
    if h.lastCheckedOn.Some? {
      var from := GREGORIAN.DateOf(h.lastCheckedOn.value);
      GREGORIAN.DateIsUnique(GREGORIAN.AddMonths(from, Larger(1, p.intervalMonths(kind))));
    }
  }

  /** For an identity check an expiry after the last check moves the due day forward to it; nothing else does. */
  lemma DueExactly(kind: CheckType, h: History<int>, p: Policy<int>)
    ensures kind != Identity || h.earliestIdentityExpiry.None? ==> DueOn(kind, h, p) == ScheduledOn(kind, h, p)
    ensures kind == Identity && h.earliestIdentityExpiry.Some? ==>
      var expiry, scheduled := h.earliestIdentityExpiry.value, ScheduledOn(kind, h, p);
      DueOn(kind, h, p) ==
        if h.lastCheckedOn.Some? && expiry <= h.lastCheckedOn.value then scheduled
        else if expiry <= scheduled then expiry else scheduled
  {
  }

  /** As the days pass a standing only gets worse, until a check is done. */
  lemma StatusOnlyAdvances(kind: CheckType, h: History<int>, p: Policy<int>, today: int, later: int)
    requires today <= later
    ensures Rank(Status(kind, h, p, today)) <= Rank(Status(kind, h, p, later))
  {
  }

  lemma LaterScheduleLaterDue(kind: CheckType, h: History<int>, h': History<int>, scheduled: int, scheduled': int)
    requires h.lastCheckedOn.Some? && h'.lastCheckedOn.Some? && h.lastCheckedOn.value <= h'.lastCheckedOn.value
    requires h'.earliestIdentityExpiry == h.earliestIdentityExpiry && scheduled <= scheduled'
    ensures DueGiven(kind, h, scheduled) <= DueGiven(kind, h', scheduled')
  {
  }

  lemma LaterDueNoWorse(today: int, due: int, due': int, graceDays: int, remindDaysBefore: int)
    requires due <= due'
    ensures Rank(StatusOn(today, due', graceDays, remindDaysBefore))
      <= Rank(StatusOn(today, due, graceDays, remindDaysBefore))
  {
  }

  /**
   * A later last check never makes the next one due earlier or the standing worse, even where an
   * identity document's expiry overrides the interval.
   */
  lemma LaterCheckNeverHurts(kind: CheckType, h: History<int>, h': History<int>, p: Policy<int>, today: int)
    requires h.lastCheckedOn.Some? && h'.lastCheckedOn.Some? && h.lastCheckedOn.value <= h'.lastCheckedOn.value
    requires h'.earliestIdentityExpiry == h.earliestIdentityExpiry
    ensures DueOn(kind, h, p) <= DueOn(kind, h', p)
    ensures Rank(Status(kind, h', p, today)) <= Rank(Status(kind, h, p, today))
  {
    MonthsAfterMonotone(h.lastCheckedOn.value, h'.lastCheckedOn.value, AtLeast(1, p.intervalMonths(kind)));
    LaterScheduleLaterDue(kind, h, h', ScheduledOn(kind, h, p), ScheduledOn(kind, h', p));
    LaterDueNoWorse(today, DueOn(kind, h, p), DueOn(kind, h', p), p.graceDays, p.remindDaysBefore);
  }

  // ---- The same over keys, as the source computes it ----

  datatype Reason = TheInterval | NeverChecked | IdentityExpires

  datatype Standing = Standing(dueOn: string, blockFrom: string, status: RecheckStatus, because: Reason)

  predicate KeyOrNone(k: Option<string>) { k.Some? ==> IsKey(k.value) }

  function DayOrNone(k: Option<string>): Option<int>
    requires KeyOrNone(k)
  {
    if k.Some? then Some(DayOfKey(k.value)) else None
  }

  predicate KeyHistory(h: History<string>) { KeyOrNone(h.lastCheckedOn) && KeyOrNone(h.earliestIdentityExpiry) }

  function InDays(h: History<string>): History<int>
    requires KeyHistory(h)
  {
    History(DayOrNone(h.lastCheckedOn), DayOrNone(h.earliestIdentityExpiry))
  }

  function PolicyInDays(p: Policy<string>): Policy<int>
    requires IsKey(p.firstRoundDueOn)
  {
    Policy(p.intervalMonths, p.graceDays, p.remindDaysBefore, DayOfKey(p.firstRoundDueOn))
  }

  method ScheduledKey(kind: CheckType, h: History<string>, p: Policy<string>) returns (due: string)
    requires KeyHistory(h) && IsKey(p.firstRoundDueOn)
    requires h.lastCheckedOn.Some? ==> MonthsFit(h.lastCheckedOn.value, AtLeast(1, p.intervalMonths(kind)))
    ensures IsKey(due) && DayOfKey(due) == ScheduledOn(kind, InDays(h), PolicyInDays(p))
  {
    if h.lastCheckedOn.None? {
      return p.firstRoundDueOn;
    }
    due := AddMonthsToDateKey(h.lastCheckedOn.value, AtLeast(1, p.intervalMonths(kind)));
    GREGORIAN.DateIsUnique(ParseKey(h.lastCheckedOn.value));
  }

  method TestExpiry(kind: CheckType, h: History<string>, due: string) returns (first: bool)
    requires KeyHistory(h) && IsKey(due)
    ensures first == ExpiryComesFirst(kind, InDays(h), DayOfKey(due))
  {
    if kind != Identity || h.earliestIdentityExpiry.None? {
      return false;
    }
    var expiry := h.earliestIdentityExpiry.value;
    KeyOrder(expiry, due);
    if h.lastCheckedOn.Some? {
      KeyOrder(h.lastCheckedOn.value, expiry);
    }
    return (h.lastCheckedOn.None? || Less(h.lastCheckedOn.value, expiry)) && Less(expiry, due);
  }

  /** A key moved within the years that keys are printed for. */
  method MoveKey(key: string, days: int) returns (r: string)
    requires IsKey(key) && HasKey(DayOfKey(key) + days)
    ensures IsKey(r) && DayOfKey(r) == DayOfKey(key) + days
  {
    r := AddDaysToDateKey(key, days);
  }

  method HasCome(today: string, key: string) returns (come: bool)
    requires IsKey(today) && IsKey(key)
    ensures come <==> DayOfKey(today) >= DayOfKey(key)
  {
    KeyOrder(today, key);
    come := !Less(today, key);
  }

  method StatusFromKeys(today: string, dueOn: string, graceDays: int, remindDaysBefore: int)
      returns (status: RecheckStatus, blockFrom: string)
    requires IsKey(today) && IsKey(dueOn)
    requires HasKey(DayOfKey(dueOn) + AtLeast(0, graceDays)) && HasKey(DayOfKey(dueOn) + -AtLeast(0, remindDaysBefore))
    ensures status == StatusOn(DayOfKey(today), DayOfKey(dueOn), graceDays, remindDaysBefore)
    ensures IsKey(blockFrom) && DayOfKey(blockFrom) == DayOfKey(dueOn) + AtLeast(0, graceDays)
  {
    blockFrom := MoveKey(dueOn, AtLeast(0, graceDays));
    var blocked := HasCome(today, blockFrom);
    if blocked {
      return Blocked, blockFrom;
    }
    var due := HasCome(today, dueOn);
    if due {
      return Due, blockFrom;
    }
    var remindFrom := MoveKey(dueOn, -AtLeast(0, remindDaysBefore));
    var soon := HasCome(today, remindFrom);
    status := if soon then DueSoon else UpToDate;
  }

  method DueKey(kind: CheckType, h: History<string>, p: Policy<string>) returns (dueOn: string, because: Reason)
    requires KeyHistory(h) && IsKey(p.firstRoundDueOn)
    requires h.lastCheckedOn.Some? ==> MonthsFit(h.lastCheckedOn.value, AtLeast(1, p.intervalMonths(kind)))
    ensures IsKey(dueOn) && DayOfKey(dueOn) == DueOn(kind, InDays(h), PolicyInDays(p))
    ensures because == IdentityExpires <==>
      ExpiryComesFirst(kind, InDays(h), ScheduledOn(kind, InDays(h), PolicyInDays(p)))
    ensures because != IdentityExpires ==> (because == NeverChecked <==> h.lastCheckedOn.None?)
  {
    dueOn := ScheduledKey(kind, h, p);
    because := if h.lastCheckedOn.Some? then TheInterval else NeverChecked;
    var expires := TestExpiry(kind, h, dueOn);
    if expires {
      dueOn := h.earliestIdentityExpiry.value;
      because := IdentityExpires;
    }
  }

  /** The days the rules reach from a due day can all be written as keys. */
  predicate DueFits(due: int, graceDays: int, remindDaysBefore: int)
  {
    HasKey(due + AtLeast(0, graceDays)) && HasKey(due + -AtLeast(0, remindDaysBefore))
  }

  /** The standing worked out on keys, every comparison one of strings. */
  method RecheckStanding(kind: CheckType, h: History<string>, p: Policy<string>, today: string) returns (s: Standing)
    requires IsKey(today) && KeyHistory(h) && IsKey(p.firstRoundDueOn)
    requires h.lastCheckedOn.Some? ==> MonthsFit(h.lastCheckedOn.value, AtLeast(1, p.intervalMonths(kind)))
    requires DueFits(DueOn(kind, InDays(h), PolicyInDays(p)), p.graceDays, p.remindDaysBefore)
    ensures IsKey(s.dueOn) && DayOfKey(s.dueOn) == DueOn(kind, InDays(h), PolicyInDays(p))
    ensures IsKey(s.blockFrom) && DayOfKey(s.blockFrom) == DayOfKey(s.dueOn) + AtLeast(0, p.graceDays)
    ensures s.status == Status(kind, InDays(h), PolicyInDays(p), DayOfKey(today))
    ensures s.because == IdentityExpires <==>
      ExpiryComesFirst(kind, InDays(h), ScheduledOn(kind, InDays(h), PolicyInDays(p)))
    ensures s.because != IdentityExpires ==> (s.because == NeverChecked <==> h.lastCheckedOn.None?)
  {
    var dueOn, because := DueKey(kind, h, p);
    var status, blockFrom := StatusFromKeys(today, dueOn, p.graceDays, p.remindDaysBefore);
    s := Standing(dueOn, blockFrom, status, because);
  }
}

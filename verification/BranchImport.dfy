/**
 * Both ends of a branch import review (packages/shared/src/branch-import.ts): the screen reports how
 * its rows differ from the file's, and the commit replays those differences on the server's copy.
 */
module BranchImport {
  import opened BranchRows
  import opened Common

  // ---- Decisions, which may be malformed ----

  datatype Typed = Text(value: string) | NotText

  datatype Coordinate = Finite(value: real) | NotFinite

  datatype RowEdit = RowEdit(fields: map<Field, Typed>, latitude: Option<Coordinate>, longitude: Option<Coordinate>)

  const NO_EDIT := RowEdit(map[], None, None)

  datatype Decisions = Decisions(mode: Mode, excluded: seq<int>, edits: map<int, RowEdit>)

  datatype Reason =
    | RemovedInReview
    | FieldNotText(field: Field) | FieldTooLong(field: Field) | BadPincode(typed: string) | BadPin
    | AnotherBank(why: string) | Geography(why: string) | StillMissing(fields: seq<Field>) | NotExactlyLocated

  datatype Note = Note(row: int, solId: string, reason: Reason)

  function FieldMax(f: Field): nat
  {
    match f
    case SolId => 50
    case Name => 255
    case State => 100
    case District => 100
    case Address => 2000
    case Pincode => 6
  }

  /** An Indian postal code: a nonzero digit and five more. */
  predicate IsPincode(s: string)
  {
    |s| == 6 && '1' <= s[0] <= '9' && forall i :: 1 <= i < 6 ==> '0' <= s[i] <= '9'
  }

  // ---- One row's edit ----

  /** Why a typed value is refused for a field, or nothing. */
  function FieldProblem(f: Field, typed: Typed): Option<Reason>
  {
    if typed.NotText? then Some(FieldNotText(f))
    else if |Trim(typed.value)| > FieldMax(f) then Some(FieldTooLong(f))
    else if f == Pincode && Trim(typed.value) != "" && !IsPincode(Trim(typed.value)) then
      Some(BadPincode(Trim(typed.value)))
    else None
  }

  predicate MovesBranch(f: Field) { f == Address || f == District || f == State || f == Pincode }

  /** An edit part-way through: the texts so far, why it was refused, and whether a place field changed. */
  datatype Editing = Editing(texts: Texts, refused: Option<Reason>, moved: bool)

  function EditField(e: Editing, f: Field, fields: map<Field, Typed>): Editing
  {
    if e.refused.Some? || f !in fields then e
    else if FieldProblem(f, fields[f]).Some? then e.(refused := FieldProblem(f, fields[f]))
    else if e.texts.Get(f) == Trim(fields[f].value) then e
    else Editing(e.texts.With(f, Trim(fields[f].value)), None, e.moved || MovesBranch(f))
  }

  /** The first n editable fields, in order. */
  function EditFields(texts: Texts, fields: map<Field, Typed>, n: nat): Editing
    requires n <= |EDITABLE|
  {
    if n == 0 then Editing(texts, None, false) else EditField(EditFields(texts, fields, n - 1), EDITABLE[n - 1], fields)
  }

  datatype RowOutcome = RowOutcome(row: Row, refused: Option<Reason>, moved: bool, pinned: bool)

  predicate GoodPin(edit: RowEdit, plausible: (real, real) -> bool)
  {
    && edit.latitude.Some? && edit.latitude.value.Finite? && edit.longitude.Some? && edit.longitude.value.Finite?
    && plausible(edit.latitude.value.value, edit.longitude.value.value)
  }

  /** A pin placed by hand is recorded as one, whatever the caller says of it. */
  function HandPin(edit: RowEdit): Placement
    requires edit.latitude.Some? && edit.latitude.value.Finite? && edit.longitude.Some? && edit.longitude.value.Finite?
  {
    Placement(Some(edit.latitude.value.value), Some(edit.longitude.value.value), "manual", Some(5.0))
  }

  function EditRow(original: Row, edit: RowEdit, plausible: (real, real) -> bool): RowOutcome
  {
    var e := EditFields(original.texts, edit.fields, |EDITABLE|);
    var row := original.(texts := e.texts);
    if e.refused.Some? || (edit.latitude.None? && edit.longitude.None?) then RowOutcome(row, e.refused, e.moved, false)
    else if !GoodPin(edit, plausible) then RowOutcome(row, Some(BadPin), e.moved, false)
    else RowOutcome(row.(place := HandPin(edit)), None, e.moved, true)
  }

  // ---- Every row's verdict ----

  datatype Verdict = Commit(row: Row) | Remove(note: Note) | Leave(note: Note)

  function WhyNot(row: Row): Reason
  {
    if CriticalMismatch(row) then AnotherBank(row.facts.clientMismatch.value.reason)
    else if row.status == NeedsDetails && row.missing == [] && GeographyUnresolved(row) then
      Geography(row.facts.geographyProblem.value.reason)
    else if row.status == NeedsDetails then StillMissing(row.missing)
    else NotExactlyLocated
  }

  function EditOf(d: Decisions, rowNumber: int): RowEdit
  {
    if rowNumber in d.edits then d.edits[rowNumber] else NO_EDIT
  }

  function Judge(original: Row, d: Decisions, plausible: (real, real) -> bool): Verdict
  {
    if original.rowNumber in d.excluded then Remove(Note(original.rowNumber, original.texts.solId, RemovedInReview))
    else
      var o := EditRow(original, EditOf(d, original.rowNumber), plausible);
      if o.refused.Some? then
        var solId := if o.row.texts.solId != "" then o.row.texts.solId else original.texts.solId;
        Leave(Note(original.rowNumber, solId, o.refused.value))
      else
        var row := WithStatus(o.row);
        if IsCommittable(row, d.mode) then Commit(row) else Leave(Note(row.rowNumber, row.texts.solId, WhyNot(row)))
  }

  function Judged(stored: seq<Row>, d: Decisions, plausible: (real, real) -> bool): (vs: seq<Verdict>)
    ensures |vs| == |stored| && forall i :: 0 <= i < |vs| ==> vs[i] == Judge(stored[i], d, plausible)
  {
    seq(|stored|, i requires 0 <= i < |stored| => Judge(stored[i], d, plausible))
  }

  function ListOf<T>(x: Option<T>): seq<T> { if x.Some? then [x.value] else [] }

  /** What a test picks out of the verdicts, in order. */
  function Picked<T>(vs: seq<Verdict>, pick: Verdict -> Option<T>): seq<T>
  {
    if vs == [] then [] else Picked(vs[..|vs| - 1], pick) + ListOf(pick(vs[|vs| - 1]))
  }

  function RowOf(v: Verdict): Option<Row> { if v.Commit? then Some(v.row) else None }
  function RemovalOf(v: Verdict): Option<Note> { if v.Remove? then Some(v.note) else None }
  function LeavingOf(v: Verdict): Option<Note> { if v.Leave? then Some(v.note) else None }

  function Committed(vs: seq<Verdict>): seq<Row> { Picked(vs, RowOf) }
  function Removed(vs: seq<Verdict>): seq<Note> { Picked(vs, RemovalOf) }
  function Left(vs: seq<Verdict>): seq<Note> { Picked(vs, LeavingOf) }

  /** What one row's edit makes of the row numbers whose placement is stale. */
  function MovedAfter(row: Row, d: Decisions, plausible: (real, real) -> bool, before: set<int>): set<int>
  {
    if row.rowNumber in d.excluded then before
    else
      var o := EditRow(row, EditOf(d, row.rowNumber), plausible);
      if o.pinned then before - {row.rowNumber} else if o.moved then before + {row.rowNumber} else before
  }

  /** The row numbers whose placement the first n rows' edits leave stale. */
  function Moved(stored: seq<Row>, d: Decisions, plausible: (real, real) -> bool, n: nat): set<int>
    requires n <= |stored|
  {
    if n == 0 then {} else MovedAfter(stored[n - 1], d, plausible, Moved(stored, d, plausible, n - 1))
  }

  datatype Applied = Applied(rows: seq<Row>, removed: seq<Note>, left: seq<Note>, movedByEdit: set<int>)

  // ---- Applying decisions ----

  /** The field edits as the source makes them: in order, stopping at the first refusal. */
  method EditTexts(texts: Texts, fields: map<Field, Typed>) returns (e: Editing)
    ensures e == EditFields(texts, fields, |EDITABLE|)
  {
    var now, moved := texts, false;
    for i := 0 to |EDITABLE|
      invariant Editing(now, None, moved) == EditFields(texts, fields, i)
    {
      var field := EDITABLE[i];
      if field !in fields {
        continue;
      }
      var problem := FieldProblem(field, fields[field]);
      if problem.Some? {
        RefusedStays(texts, fields, i + 1, |EDITABLE|);
        return Editing(now, problem, moved);
      }
      var trimmed := Trim(fields[field].value);
      if now.Get(field) != trimmed {
        now := now.With(field, trimmed);
        moved := moved || MovesBranch(field);
      }
    }
    return Editing(now, None, moved);
  }

  lemma {:induction false} RefusedStays(texts: Texts, fields: map<Field, Typed>, m: nat, n: nat)
    requires m <= n <= |EDITABLE| && EditFields(texts, fields, m).refused.Some?
    ensures EditFields(texts, fields, n) == EditFields(texts, fields, m)
    decreases n - m
  {
    if m < n {
      RefusedStays(texts, fields, m, n - 1);
    }
  }

  /** One stored row: its verdict, and what its edit does to the stale placements. */
  method ApplyToRow(original: Row, d: Decisions, plausible: (real, real) -> bool, moved: set<int>)
      returns (v: Verdict, stale: set<int>)
    requires original.rowNumber !in d.excluded
    ensures v == Judge(original, d, plausible) && !v.Remove?
    ensures stale == MovedAfter(original, d, plausible, moved)
  {
    var edit := EditOf(d, original.rowNumber);
    var e := EditTexts(original.texts, edit.fields);
    var row, refused := original.(texts := e.texts), e.refused;
    stale := if e.moved then moved + {original.rowNumber} else moved;
    if refused.None? && (edit.latitude.Some? || edit.longitude.Some?) {
      if !GoodPin(edit, plausible) {
        refused := Some(BadPin);
      } else {
        row := row.(place := HandPin(edit));
        stale := stale - {original.rowNumber};
      }
    }
    if refused.Some? {
      var solId := if row.texts.solId != "" then row.texts.solId else original.texts.solId;
      return Leave(Note(original.rowNumber, solId, refused.value)), stale;
    }
    row := WithStatus(row);
    v := if IsCommittable(row, d.mode) then Commit(row) else Leave(Note(row.rowNumber, row.texts.solId, WhyNot(row)));
  }

  lemma PickedGrows<T>(vs: seq<Verdict>, n: nat, pick: Verdict -> Option<T>)
    requires n < |vs|
    ensures Picked(vs[..n + 1], pick) == Picked(vs[..n], pick) + ListOf(pick(vs[n]))
  {
    assert vs[..n + 1][..n] == vs[..n];
  }

  /** The lists are those of these verdicts. */
  ghost predicate ListsAre(vs: seq<Verdict>, rows: seq<Row>, removed: seq<Note>, left: seq<Note>)
  {
    rows == Committed(vs) && removed == Removed(vs) && left == Left(vs)
  }

  /** The three lists after one more verdict. */
  lemma ListsGrow(vs: seq<Verdict>, n: nat, rows: seq<Row>, removed: seq<Note>, left: seq<Note>)
    requires n < |vs| && ListsAre(vs[..n], rows, removed, left)
    ensures match vs[n]
      case Commit(row) => ListsAre(vs[..n + 1], rows + [row], removed, left)
      case Remove(note) => ListsAre(vs[..n + 1], rows, removed + [note], left)
      case Leave(note) => ListsAre(vs[..n + 1], rows, removed, left + [note])
  {
    PickedGrows(vs, n, RowOf);
    PickedGrows(vs, n, RemovalOf);
    PickedGrows(vs, n, LeavingOf);
  }

  /** One stored row goes into one of the three lists. */
  method ApplyNext(original: Row, d: Decisions, plausible: (real, real) -> bool, before: Applied,
                   ghost vs: seq<Verdict>, ghost n: nat)
      returns (a: Applied)
    requires n < |vs| && vs[n] == Judge(original, d, plausible)
    requires ListsAre(vs[..n], before.rows, before.removed, before.left)
    ensures ListsAre(vs[..n + 1], a.rows, a.removed, a.left)
    ensures a.movedByEdit == MovedAfter(original, d, plausible, before.movedByEdit)
  {
    ListsGrow(vs, n, before.rows, before.removed, before.left);
    if original.rowNumber in d.excluded {
      var note := Note(original.rowNumber, original.texts.solId, RemovedInReview);
      return before.(removed := before.removed + [note]);
    }
    var v, stale := ApplyToRow(original, d, plausible, before.movedByEdit);
    a := before.(movedByEdit := stale);
    if v.Commit? {
      a := a.(rows := a.rows + [v.row]);
    } else {
      a := a.(left := a.left + [v.note]);
    }
  }

  /** Replay the decisions row by row: what is written, what was removed, and what stays behind and why. */
  method ApplyBranchDecisions(stored: seq<Row>, d: Decisions, plausible: (real, real) -> bool) returns (a: Applied)
    ensures a.rows == Committed(Judged(stored, d, plausible))
    ensures a.removed == Removed(Judged(stored, d, plausible))
    ensures a.left == Left(Judged(stored, d, plausible))
    ensures a.movedByEdit == Moved(stored, d, plausible, |stored|)
  {
    a := Applied([], [], [], {});
    ghost var vs := Judged(stored, d, plausible);
    for n := 0 to |stored|
      invariant ListsAre(vs[..n], a.rows, a.removed, a.left)
      invariant a.movedByEdit == Moved(stored, d, plausible, n)
    {
      a := ApplyNext(stored[n], d, plausible, a, vs, n);
    }
    assert vs[..|stored|] == vs;
  }

  // ---- No tampering, whatever the decisions say ----

  /** Every text of an edited row is the stored one, or the trimmed text typed for that field. */
  lemma {:induction false} TextsFromEdit(texts: Texts, fields: map<Field, Typed>, n: nat, f: Field)
    requires n <= |EDITABLE|
    ensures var t := EditFields(texts, fields, n).texts.Get(f);
      t == texts.Get(f)
      || (f in fields && fields[f].Text? && t == Trim(fields[f].value) && FieldProblem(f, fields[f]).None?)
  {
    if n > 0 {
      TextsFromEdit(texts, fields, n - 1, f);
    }
  }

  /** The stored row's own facts, place and number survive every edit but a hand-placed plausible pin. */
  predicate OnlyEdited(original: Row, row: Row, edit: RowEdit, plausible: (real, real) -> bool)
  {
    && row.rowNumber == original.rowNumber && row.facts == original.facts
    && (|| row.place == original.place
        || (&& GoodPin(edit, plausible)
            && row.place == Placement(
                 Some(edit.latitude.value.value), Some(edit.longitude.value.value), "manual", Some(5.0))))
  }

  /** A text of a committed row is the stored one, or typed for that very field, in limit and well formed. */
  predicate TextFromEdit(original: Row, row: Row, edit: RowEdit, f: Field)
  {
    || row.texts.Get(f) == original.texts.Get(f)
    || (&& f in edit.fields && edit.fields[f].Text? && row.texts.Get(f) == Trim(edit.fields[f].value)
        && |row.texts.Get(f)| <= FieldMax(f)
        && (f == Pincode ==> row.texts.pincode == "" || IsPincode(row.texts.pincode)))
  }

  /** A row fit to write: its status its own, no critical mismatch, no geography problem, no gap that stops planning. */
  predicate FitToWrite(row: Row, mode: Mode)
  {
    && row == WithStatus(row) && !CriticalMismatch(row) && !GeographyUnresolved(row)
    && row.texts.solId != "" && row.texts.name != "" && row.texts.state != ""
    && (mode == ReadyOnly ==> row.status == Ready)
  }

  /** `row` is what the decisions may make of `original`, and no more. */
  ghost predicate Untampered(original: Row, row: Row, d: Decisions, plausible: (real, real) -> bool)
  {
    && original.rowNumber !in d.excluded
    && OnlyEdited(original, row, EditOf(d, original.rowNumber), plausible)
    && (forall f :: TextFromEdit(original, row, EditOf(d, original.rowNumber), f))
    && FitToWrite(row, d.mode)
  }

  /**
   * For any decisions: a committed row is the stored one but for trimmed, in-limit texts and a
   * plausible pin recorded as manual at 5 m; its status is recomputed; and it has neither a
   * critical mismatch nor an unresolved geography problem.
   */
  lemma NoTampering(original: Row, d: Decisions, plausible: (real, real) -> bool)
    requires Judge(original, d, plausible).Commit?
    ensures Untampered(original, Judge(original, d, plausible).row, d, plausible)
  {
    var row, edit := Judge(original, d, plausible).row, EditOf(d, original.rowNumber);
    forall f ensures TextFromEdit(original, row, edit, f) {
      TextsFromEdit(original.texts, edit.fields, |EDITABLE|, f);
    }
  }

  lemma {:induction false} CommittedVerdict(vs: seq<Verdict>, row: Row) returns (k: nat)
    requires row in Committed(vs)
    ensures k < |vs| && vs[k] == Commit(row)
  {
    var n := |vs| - 1;
    if vs[n] == Commit(row) {
      k := n;
    } else {
      k := CommittedVerdict(vs[..n], row);
    }
  }

  /** Every row a commit writes is a stored row, untampered with. */
  lemma NothingElseIsWritten(stored: seq<Row>, d: Decisions, plausible: (real, real) -> bool, row: Row)
    requires row in Committed(Judged(stored, d, plausible))
    ensures exists original <- stored :: Untampered(original, row, d, plausible)
  {
    var k := CommittedVerdict(Judged(stored, d, plausible), row);
    NoTampering(stored[k], d, plausible);
  }

  // ---- Which edits are refused, and which rows are written ----

  /** How long a text its field can hold. */
  predicate FitsIn(f: Field, length: nat)
  {
    match f
    case SolId => length <= 50
    case Name => length <= 255
    case State => length <= 100
    case District => length <= 100
    case Address => length <= 2000
    case Pincode => length <= 6
  }

  /** Blank, or six digits of which the first is not 0. */
  predicate IsPincodeOrBlank(text: string)
  {
    text == "" || (|text| == 6 && text[0] != '0' && forall i :: 0 <= i < 6 ==> '0' <= text[i] <= '9')
  }

  /** A text of a length its field can hold, and of the shape it must have. */
  predicate IsAcceptable(f: Field, text: string)
  {
    FitsIn(f, |text|) && (f == Pincode ==> IsPincodeOrBlank(text))
  }

  /** Either no pin, or a whole one that is plausible. */
  predicate PinAcceptable(edit: RowEdit, plausible: (real, real) -> bool)
  {
    || (edit.latitude.None? && edit.longitude.None?)
    || (&& edit.latitude.Some? && edit.latitude.value.Finite? && edit.longitude.Some? && edit.longitude.value.Finite?
        && plausible(edit.latitude.value.value, edit.longitude.value.value))
  }

  lemma AcceptableExactly(f: Field, typed: Typed)
    ensures FieldProblem(f, typed).None? <==> typed.Text? && IsAcceptable(f, Trim(typed.value))
  {
  }

  /** An edit goes through exactly when every text typed is acceptable once trimmed, and the pin is. */
  lemma AcceptedExactly(original: Row, edit: RowEdit, plausible: (real, real) -> bool)
    ensures EditRow(original, edit, plausible).refused.None? <==>
      && (forall f <- edit.fields :: edit.fields[f].Text? && IsAcceptable(f, Trim(edit.fields[f].value)))
      && PinAcceptable(edit, plausible)
  {
    RefusedWhen(original.texts, edit.fields, |EDITABLE|);
    forall f | f in edit.fields
      ensures FieldProblem(f, edit.fields[f]).None? <==>
        edit.fields[f].Text? && IsAcceptable(f, Trim(edit.fields[f].value))
    {
      AcceptableExactly(f, edit.fields[f]);
    }
  }

  /** The reason given for refusing an edit is so. */
  predicate IsTrueRefusal(edit: RowEdit, plausible: (real, real) -> bool, reason: Reason)
  {
    match reason
    case FieldNotText(f) => f in edit.fields && edit.fields[f].NotText?
    case FieldTooLong(f) => f in edit.fields && edit.fields[f].Text? && !FitsIn(f, |Trim(edit.fields[f].value)|)
    case BadPincode(typed) =>
      && Pincode in edit.fields && edit.fields[Pincode].Text? && typed == Trim(edit.fields[Pincode].value)
      && FitsIn(Pincode, |typed|) && !IsPincodeOrBlank(typed)
    case BadPin => !PinAcceptable(edit, plausible)
    case _ => false
  }

  /** The first field with a problem, in order, is why an edit is refused. */
  lemma {:induction false} FirstProblem(texts: Texts, fields: map<Field, Typed>, n: nat) returns (i: nat)
    requires n <= |EDITABLE| && EditFields(texts, fields, n).refused.Some?
    ensures i < n && EDITABLE[i] in fields
    ensures EditFields(texts, fields, n).refused == FieldProblem(EDITABLE[i], fields[EDITABLE[i]])
    ensures forall j :: 0 <= j < i && EDITABLE[j] in fields ==> FieldProblem(EDITABLE[j], fields[EDITABLE[j]]).None?
  {
    if EditFields(texts, fields, n - 1).refused.Some? {
      i := FirstProblem(texts, fields, n - 1);
    } else {
      i := n - 1;
      RefusedWhen(texts, fields, n - 1);
      forall j | 0 <= j < i && EDITABLE[j] in fields
        ensures FieldProblem(EDITABLE[j], fields[EDITABLE[j]]).None?
      {
        PositionIsIndex(j, EDITABLE[j]);
      }
    }
  }

  /** A row is noted as removed, under its own number and SOL ID, exactly when the decisions exclude it. */
  lemma RemovedExactly(original: Row, d: Decisions, plausible: (real, real) -> bool)
    ensures var v := Judge(original, d, plausible);
      && (v.Remove? <==> original.rowNumber in d.excluded)
      && (v.Remove? ==> v.note == Note(original.rowNumber, original.texts.solId, RemovedInReview))
  {
  }

  /** A row whose edit is refused is left behind as it was found, for a reason that is true of the edit. */
  lemma RefusedTruly(original: Row, d: Decisions, plausible: (real, real) -> bool)
    requires original.rowNumber !in d.excluded
    requires EditRow(original, EditOf(d, original.rowNumber), plausible).refused.Some?
    ensures var v := Judge(original, d, plausible);
      && v.Leave? && IsTrueRefusal(EditOf(d, original.rowNumber), plausible, v.note.reason)
      && v.note.row == original.rowNumber
      && var solId := EditRow(original, EditOf(d, original.rowNumber), plausible).row.texts.solId;
         v.note.solId == if solId == "" then original.texts.solId else solId
  {
    var edit := EditOf(d, original.rowNumber);
    if EditFields(original.texts, edit.fields, |EDITABLE|).refused.Some? {
      var i := FirstProblem(original.texts, edit.fields, |EDITABLE|);
      AcceptableExactly(EDITABLE[i], edit.fields[EDITABLE[i]]);
    }
  }

  /** What a row must be to be written. */
  predicate IsWritable(row: Row, mode: Mode)
  {
    && IsNamed(row.texts) && !FromAnotherBank(row.facts) && !IsMisplaced(row.texts, row.facts)
    && (mode == ReadyOnly ==> IsPinpointed(row.place))
  }

  /** The reason given on a row left behind is so, and is the one the rules come to first. */
  predicate IsTrueReason(row: Row, mode: Mode, reason: Reason)
  {
    var incomplete := row.texts.district == "" || row.texts.address == "" || !IsNamed(row.texts);
    match reason
    case AnotherBank(why) => FromAnotherBank(row.facts) && why == row.facts.clientMismatch.value.reason
    case Geography(why) =>
      && !FromAnotherBank(row.facts) && IsMisplaced(row.texts, row.facts) && !incomplete
      && why == row.facts.geographyProblem.value.reason
    case StillMissing(fields) =>
      && !FromAnotherBank(row.facts)
      && (!IsNamed(row.texts) || (IsMisplaced(row.texts, row.facts) && incomplete))
      && (forall f :: f in fields <==> f != Pincode && row.texts.Get(f) == "")
    case NotExactlyLocated => IsWritable(row, AllValid) && mode == ReadyOnly && !IsPinpointed(row.place)
    case _ => false
  }

  lemma TrueReason(row: Row, mode: Mode)
    requires row == WithStatus(row) && !IsCommittable(row, mode)
    ensures IsTrueReason(row, mode, WhyNot(row))
  {
    StatusExactly(row);
    UnresolvedIsMisplaced(row);
    forall f ensures f in row.missing <==> f != Pincode && row.texts.Get(f) == "" {
      MissingExactly(row.texts, f);
    }
    assert row.texts.Get(SolId) == row.texts.solId && row.texts.Get(Name) == row.texts.name;
    assert row.texts.Get(State) == row.texts.state && row.texts.Get(District) == row.texts.district;
    assert row.texts.Get(Address) == row.texts.address;
    assert row.missing == [] || row.missing[0] in row.missing;
  }

  /**
   * A row not removed whose edit goes through is written exactly when it is named, of the right bank
   * and in a known place, and under `ready_only` pinpointed as well; if it is left, the reason given
   * is true of it.
   */
  lemma WrittenExactly(original: Row, d: Decisions, plausible: (real, real) -> bool)
    requires original.rowNumber !in d.excluded
    requires EditRow(original, EditOf(d, original.rowNumber), plausible).refused.None?
    ensures var row := EditRow(original, EditOf(d, original.rowNumber), plausible).row;
      var v := Judge(original, d, plausible);
      && (v.Commit? <==> IsWritable(row, d.mode))
      && (v.Commit? ==> SameContent(v.row, row))
      && (!v.Commit? ==> v.Leave? && IsTrueReason(row, d.mode, v.note.reason))
      && (!v.Commit? ==> v.note.row == original.rowNumber && v.note.solId == row.texts.solId)
  {
    var row := EditRow(original, EditOf(d, original.rowNumber), plausible).row;
    StatusExactly(row);
    if !IsCommittable(WithStatus(row), d.mode) {
      TrueReason(WithStatus(row), d.mode);
    }
  }

  // ---- Every row lands in one list, in file order ----

  /** The elements of b that a mask keeps, in order. */
  function Masked<T>(b: seq<T>, mask: seq<bool>): seq<T>
    requires |mask| == |b|
  {
    if b == [] then []
    else Masked(b[..|b| - 1], mask[..|b| - 1]) + if mask[|b| - 1] then [b[|b| - 1]] else []
  }

  /** a is b with some elements left out. */
  ghost predicate Subsequence<T(!new)>(a: seq<T>, b: seq<T>)
  {
    exists mask: seq<bool> :: |mask| == |b| && Masked(b, mask) == a
  }

  lemma SubsequenceOfNothing<T(!new)>()
    ensures Subsequence<T>([], [])
  {
    var none: seq<bool> := [];
    assert Masked<T>([], none) == [];
  }

  lemma {:induction false} MaskedGrows<T>(b: seq<T>, mask: seq<bool>, x: T, keep: bool)
    requires |mask| == |b|
    ensures Masked(b + [x], mask + [keep]) == Masked(b, mask) + if keep then [x] else []
  {
    assert (b + [x])[..|b|] == b && (mask + [keep])[..|b|] == mask;
  }

  lemma SubsequenceSkips<T(!new)>(a: seq<T>, b: seq<T>, x: T)
    requires Subsequence(a, b)
    ensures Subsequence(a, b + [x])
  {
    var mask :| |mask| == |b| && Masked(b, mask) == a;
    MaskedGrows(b, mask, x, false);
    assert a + [] == a;
    assert Masked(b + [x], mask + [false]) == a;
  }

  lemma SubsequenceKeeps<T(!new)>(a: seq<T>, b: seq<T>, x: T)
    requires Subsequence(a, b)
    ensures Subsequence(a + [x], b + [x])
  {
    var mask :| |mask| == |b| && Masked(b, mask) == a;
    MaskedGrows(b, mask, x, true);
    assert Masked(b + [x], mask + [true]) == a + [x];
  }

  /** Three masks of which exactly one keeps each element share the elements out. */
  lemma {:induction false} MasksShareOut<T>(s: seq<T>, a: seq<bool>, b: seq<bool>, c: seq<bool>)
    requires |a| == |b| == |c| == |s|
    requires forall i :: 0 <= i < |s| ==>
      (a[i] && !b[i] && !c[i]) || (!a[i] && b[i] && !c[i]) || (!a[i] && !b[i] && c[i])
    ensures multiset(s) == multiset(Masked(s, a)) + multiset(Masked(s, b)) + multiset(Masked(s, c))
  {
    if s != [] {
      var n := |s| - 1;
      MasksShareOut(s[..n], a[..n], b[..n], c[..n]);
      MaskedBag(s, a);
      MaskedBag(s, b);
      MaskedBag(s, c);
      BagOfLast(s);
    }
  }

  lemma BagOfLast<T>(s: seq<T>)
    requires s != []
    ensures multiset(s) == multiset(s[..|s| - 1]) + multiset{s[|s| - 1]}
  {
    assert s == s[..|s| - 1] + [s[|s| - 1]];
  }

  lemma {:induction false} MaskedBag<T>(s: seq<T>, mask: seq<bool>)
    requires |mask| == |s| && s != []
    ensures multiset(Masked(s, mask)) ==
      multiset(Masked(s[..|s| - 1], mask[..|s| - 1])) + if mask[|s| - 1] then multiset{s[|s| - 1]} else multiset{}
  {
  }

  /** The row number a verdict is about. */
  function NumberOf(v: Verdict): int { if v.Commit? then v.row.rowNumber else v.note.row }

  lemma VerdictKeepsNumber(original: Row, d: Decisions, plausible: (real, real) -> bool)
    ensures NumberOf(Judge(original, d, plausible)) == original.rowNumber
  {
  }

  function NumbersOf<T>(s: seq<T>, number: T -> int): (numbers: seq<int>)
    ensures |numbers| == |s| && forall i :: 0 <= i < |s| ==> numbers[i] == number(s[i])
  {
    seq(|s|, i requires 0 <= i < |s| => number(s[i]))
  }

  function RowNumber(r: Row): int { r.rowNumber }
  function NoteRow(n: Note): int { n.row }

  function Numbers(vs: seq<Verdict>): seq<int> { NumbersOf(vs, NumberOf) }
  function RowNumbers(rows: seq<Row>): seq<int> { NumbersOf(rows, RowNumber) }
  function NoteNumbers(notes: seq<Note>): seq<int> { NumbersOf(notes, NoteRow) }

  /** Which verdicts a test picks. */
  function MaskOf<T>(vs: seq<Verdict>, pick: Verdict -> Option<T>): (mask: seq<bool>)
    ensures |mask| == |vs| && forall i :: 0 <= i < |vs| ==> mask[i] == pick(vs[i]).Some?
  {
    seq(|vs|, i requires 0 <= i < |vs| => pick(vs[i]).Some?)
  }

  lemma NumbersGrow<T>(s: seq<T>, x: Option<T>, number: T -> int)
    ensures NumbersOf(s + ListOf(x), number) == NumbersOf(s, number) + if x.Some? then [number(x.value)] else []
  {
  }

  /** What a test picks carries the numbers of the verdicts it picks. */
  lemma {:induction false} PickedNumbers<T>(vs: seq<Verdict>, pick: Verdict -> Option<T>, number: T -> int)
    requires forall v :: pick(v).Some? ==> number(pick(v).value) == NumberOf(v)
    ensures NumbersOf(Picked(vs, pick), number) == Masked(Numbers(vs), MaskOf(vs, pick))
  {
    if vs != [] {
      var init, v := vs[..|vs| - 1], vs[|vs| - 1];
      PickedNumbers(init, pick, number);
      assert MaskOf(vs, pick) == MaskOf(init, pick) + [pick(v).Some?];
      assert Numbers(vs) == Numbers(init) + [NumberOf(v)];
      MaskedGrows(Numbers(init), MaskOf(init, pick), NumberOf(v), pick(v).Some?);
      NumbersGrow(Picked(init, pick), pick(v), number);
    }
  }

  /** The three lists share the numbers out between them, each in order. */
  ghost predicate SharedOut(numbers: seq<int>, rows: seq<Row>, removed: seq<Note>, left: seq<Note>)
  {
    && multiset(numbers) == multiset(RowNumbers(rows)) + multiset(NoteNumbers(removed)) + multiset(NoteNumbers(left))
    && Subsequence(RowNumbers(rows), numbers)
    && Subsequence(NoteNumbers(removed), numbers)
    && Subsequence(NoteNumbers(left), numbers)
  }

  /** What a test picks carries numbers of the whole, in order. */
  lemma {:induction false} PickedInOrder<T>(vs: seq<Verdict>, pick: Verdict -> Option<T>, number: T -> int)
    requires forall v :: pick(v).Some? ==> number(pick(v).value) == NumberOf(v)
    ensures NumbersOf(Picked(vs, pick), number) == Masked(Numbers(vs), MaskOf(vs, pick))
    ensures Subsequence(NumbersOf(Picked(vs, pick), number), Numbers(vs))
  {
    PickedNumbers(vs, pick, number);
  }

  lemma VerdictsSharedOut(vs: seq<Verdict>)
    ensures SharedOut(Numbers(vs), Committed(vs), Removed(vs), Left(vs))
  {
    PickedInOrder(vs, RowOf, RowNumber);
    PickedInOrder(vs, RemovalOf, NoteRow);
    PickedInOrder(vs, LeavingOf, NoteRow);
    MasksShareOut(Numbers(vs), MaskOf(vs, RowOf), MaskOf(vs, RemovalOf), MaskOf(vs, LeavingOf));
  }

  lemma {:induction false} JudgedNumbers(stored: seq<Row>, d: Decisions, plausible: (real, real) -> bool)
    ensures Numbers(Judged(stored, d, plausible)) == RowNumbers(stored)
  {
    forall i | 0 <= i < |stored| ensures NumberOf(Judged(stored, d, plausible)[i]) == stored[i].rowNumber {
      VerdictKeepsNumber(stored[i], d, plausible);
    }
  }

  /** For any decisions, every stored row lands in exactly one list, and each list is in file order. */
  lemma {:induction false} EveryRowLandsOnce(stored: seq<Row>, d: Decisions, plausible: (real, real) -> bool)
    ensures var vs := Judged(stored, d, plausible);
      SharedOut(RowNumbers(stored), Committed(vs), Removed(vs), Left(vs))
  {
    VerdictsSharedOut(Judged(stored, d, plausible));
    JudgedNumbers(stored, d, plausible);
  }

  /** If one set of verdicts commits only what another does, it commits some of the other's rows. */
  lemma {:induction false} FewerCommitted(fewer: seq<Verdict>, more: seq<Verdict>)
    requires |fewer| == |more| && forall i :: 0 <= i < |fewer| && fewer[i].Commit? ==> more[i] == fewer[i]
    ensures Subsequence(Committed(fewer), Committed(more))
  {
    if fewer == [] {
      SubsequenceOfNothing<Row>();
    } else {
      var n := |fewer| - 1;
      var a, b := Committed(fewer[..n]), Committed(more[..n]);
      FewerCommitted(fewer[..n], more[..n]);
      assert a + [] == a && b + [] == b;
      if fewer[n].Commit? {
        SubsequenceKeeps(a, b, fewer[n].row);
      } else if more[n].Commit? {
        SubsequenceSkips(a, b, more[n].row);
      }
    }
  }

  /** Committing only what is ready commits some of what committing everything valid does. */
  lemma {:induction false} ReadyOnlyIsSome(stored: seq<Row>, d: Decisions, plausible: (real, real) -> bool)
    ensures Subsequence(
      Committed(Judged(stored, d.(mode := ReadyOnly), plausible)),
      Committed(Judged(stored, d.(mode := AllValid), plausible)))
  {
    var ready := Judged(stored, d.(mode := ReadyOnly), plausible);
    var all := Judged(stored, d.(mode := AllValid), plausible);
    forall i | 0 <= i < |stored| && ready[i].Commit? ensures all[i] == ready[i] {
      ReadyVerdict(stored[i], d, plausible);
    }
    FewerCommitted(ready, all);
  }

  lemma ReadyVerdict(original: Row, d: Decisions, plausible: (real, real) -> bool)
    ensures var ready := Judge(original, d.(mode := ReadyOnly), plausible);
      ready.Commit? ==> Judge(original, d.(mode := AllValid), plausible) == ready
  {
  }

  // ---- Which placements an edit leaves stale ----

  /** Where the branch is said to be differs. */
  predicate PlaceTextsDiffer(a: Texts, b: Texts)
  {
    a.state != b.state || a.district != b.district || a.address != b.address || a.pincode != b.pincode
  }

  /** The first n fields of a and b, as far as they say where the branch is, are the same. */
  ghost predicate SamePlace(a: Texts, b: Texts, n: nat)
    requires n <= |EDITABLE|
  {
    forall i :: 0 <= i < n && MovesBranch(EDITABLE[i]) ==> a.Get(EDITABLE[i]) == b.Get(EDITABLE[i])
  }

  /** The fields not come to yet are as stored, and an edit counts as moving once one of the place fields differs. */
  lemma {:induction false} MovedSoFar(texts: Texts, fields: map<Field, Typed>, n: nat)
    requires n <= |EDITABLE|
    ensures var e := EditFields(texts, fields, n);
      && (forall i :: n <= i < |EDITABLE| ==> e.texts.Get(EDITABLE[i]) == texts.Get(EDITABLE[i]))
      && (e.moved <==> !SamePlace(e.texts, texts, n))
  {
    if n > 0 {
      MovedSoFar(texts, fields, n - 1);
    }
  }

  lemma {:induction false} MovedTexts(texts: Texts, fields: map<Field, Typed>)
    ensures var e := EditFields(texts, fields, |EDITABLE|); e.moved <==> PlaceTextsDiffer(e.texts, texts)
  {
    var e := EditFields(texts, fields, |EDITABLE|);
    MovedSoFar(texts, fields, |EDITABLE|);
    assert EDITABLE[2] == State && EDITABLE[3] == District && EDITABLE[4] == Address && EDITABLE[5] == Pincode;
  }

  /** One row's outcome, as it bears on the stale placements. */
  predicate LeavesStale(row: Row, d: Decisions, plausible: (real, real) -> bool)
  {
    && row.rowNumber !in d.excluded
    && var o := EditRow(row, EditOf(d, row.rowNumber), plausible); !o.pinned && o.moved
  }

  /** With distinct row numbers, a number is stale exactly if its own row's edit left it so. */
  lemma {:induction false} MovedByOwnEdit(stored: seq<Row>, d: Decisions, plausible: (real, real) -> bool,
                                          n: nat, k: nat)
    requires DistinctNumbers(stored) && n <= |stored| && k < |stored|
    ensures stored[k].rowNumber in Moved(stored, d, plausible, n) <==> k < n && LeavesStale(stored[k], d, plausible)
  {
    if n > 0 {
      MovedByOwnEdit(stored, d, plausible, n - 1, k);
    }
  }

  /**
   * With distinct row numbers, a committed row's placement is stale exactly when its state, district,
   * address or pincode differs from the stored one and no good pin came with the edit.
   */
  lemma {:induction false} MovedExactly(stored: seq<Row>, d: Decisions, plausible: (real, real) -> bool, k: nat)
    requires DistinctNumbers(stored) && k < |stored| && Judge(stored[k], d, plausible).Commit?
    ensures stored[k].rowNumber in Moved(stored, d, plausible, |stored|) <==>
      && PlaceTextsDiffer(Judge(stored[k], d, plausible).row.texts, stored[k].texts)
      && !GoodPin(EditOf(d, stored[k].rowNumber), plausible)
  {
    MovedByOwnEdit(stored, d, plausible, |stored|, k);
    MovedTexts(stored[k].texts, EditOf(d, stored[k].rowNumber).fields);
  }

  // ---- What the screen sends ----

  /** The texts that differ, as typed. */
  function DiffTexts(before: Texts, after: Texts, n: nat): (fields: map<Field, Typed>)
    requires n <= |EDITABLE|
    ensures forall f :: f in fields <==> f in EDITABLE[..n] && before.Get(f) != after.Get(f)
    ensures forall f <- fields :: fields[f] == Text(after.Get(f))
  {
    if n == 0 then map[]
    else
      var f, earlier := EDITABLE[n - 1], DiffTexts(before, after, n - 1);
      assert EDITABLE[..n] == EDITABLE[..n - 1] + [f];
      if before.Get(f) != after.Get(f) then earlier[f := Text(after.Get(f))] else earlier
  }

  /** The screen shows a pin placed by hand that the stored row does not have. */
  predicate PinPlaced(before: Placement, after: Placement)
  {
    && after.geoSource == "manual"
    && (after.latitude != before.latitude || after.longitude != before.longitude || before.geoSource != "manual")
    && after.latitude.Some? && after.longitude.Some?
  }

  function DiffRow(before: Row, after: Row): RowEdit
  {
    var fields := DiffTexts(before.texts, after.texts, |EDITABLE|);
    if PinPlaced(before.place, after.place)
    then RowEdit(fields, Some(Finite(after.place.latitude.value)), Some(Finite(after.place.longitude.value)))
    else RowEdit(fields, None, None)
  }

  /** The rows on screen by number; the last one wins. */
  function ByRow(rows: seq<Row>): map<int, Row>
  {
    if rows == [] then map[] else ByRow(rows[..|rows| - 1])[rows[|rows| - 1].rowNumber := rows[|rows| - 1]]
  }

  /** The decisions after the first n stored rows. */
  function Diff(original: seq<Row>, screen: map<int, Row>, mode: Mode, n: nat): Decisions
    requires n <= |original|
  {
    if n == 0 then Decisions(mode, [], map[])
    else
      var d, before := Diff(original, screen, mode, n - 1), original[n - 1];
      if before.rowNumber !in screen then d.(excluded := d.excluded + [before.rowNumber])
      else
        var edit := DiffRow(before, screen[before.rowNumber]);
        if edit == NO_EDIT then d else d.(edits := d.edits[before.rowNumber := edit])
  }

  method DiffFields(before: Texts, after: Texts) returns (fields: map<Field, Typed>)
    ensures fields == DiffTexts(before, after, |EDITABLE|)
  {
    fields := map[];
    for i := 0 to |EDITABLE|
      invariant fields == DiffTexts(before, after, i)
    {
      var field := EDITABLE[i];
      var was, now := before.Get(field), after.Get(field);
      if was != now {
        fields := fields[field := Text(now)];
      }
    }
  }

  method DiffOneRow(before: Row, after: Row) returns (edit: RowEdit)
    ensures edit == DiffRow(before, after)
  {
    var fields := DiffFields(before.texts, after.texts);
    edit := RowEdit(fields, None, None);
    if PinPlaced(before.place, after.place) {
      edit := RowEdit(fields, Some(Finite(after.place.latitude.value)), Some(Finite(after.place.longitude.value)));
    }
  }

  method DiffBranchDecisions(original: seq<Row>, edited: seq<Row>, mode: Mode) returns (d: Decisions)
    ensures d == Diff(original, ByRow(edited), mode, |original|)
  {
    var byRow: map<int, Row> := map[];
    for i := 0 to |edited|
      invariant byRow == ByRow(edited[..i])
    {
      assert edited[..i + 1][..i] == edited[..i];
      byRow := byRow[edited[i].rowNumber := edited[i]];
    }
    assert edited[..|edited|] == edited;
    var excluded: seq<int>, edits: map<int, RowEdit> := [], map[];
    for n := 0 to |original|
      invariant Decisions(mode, excluded, edits) == Diff(original, byRow, mode, n)
    {
      var before := original[n];
      if before.rowNumber !in byRow {
        excluded := excluded + [before.rowNumber];
        continue;
      }
      var edit := DiffOneRow(before, byRow[before.rowNumber]);
      if edit != NO_EDIT {
        edits := edits[before.rowNumber := edit];
      }
    }
    d := Decisions(mode, excluded, edits);
  }

  // ---- The round trip ----

  function Position(f: Field): (i: nat)
    ensures i < |EDITABLE| && EDITABLE[i] == f
  {
    match f
    case SolId => 0
    case Name => 1
    case State => 2
    case District => 3
    case Address => 4
    case Pincode => 5
  }

  lemma PositionIsIndex(n: nat, f: Field)
    requires n < |EDITABLE|
    ensures EDITABLE[n] == f <==> Position(f) == n
  {
  }

  /** What a field says once one more field is edited and not refused. */
  lemma OneTextEdited(e: Editing, g: Field, fields: map<Field, Typed>, f: Field)
    requires EditField(e, g, fields).refused.None?
    ensures e.refused.None? && (g in fields ==> fields[g].Text?)
    ensures EditField(e, g, fields).texts.Get(f)
      == if f == g && g in fields then Trim(fields[g].value) else e.texts.Get(f)
  {
  }

  /** What a field says once the first n fields are edited and none was refused. */
  lemma {:induction false} EditedText(texts: Texts, fields: map<Field, Typed>, n: nat, f: Field)
    requires n <= |EDITABLE| && EditFields(texts, fields, n).refused.None?
    ensures f in fields && Position(f) < n ==> fields[f].Text?
    ensures EditFields(texts, fields, n).texts.Get(f)
      == if f in fields && Position(f) < n then Trim(fields[f].value) else texts.Get(f)
  {
    if n > 0 {
      OneTextEdited(EditFields(texts, fields, n - 1), EDITABLE[n - 1], fields, f);
      EditedText(texts, fields, n - 1, f);
      PositionIsIndex(n - 1, f);
    }
  }

  /** An edit goes through exactly when no typed field has a problem. */
  lemma {:induction false} RefusedWhen(texts: Texts, fields: map<Field, Typed>, n: nat)
    requires n <= |EDITABLE|
    ensures EditFields(texts, fields, n).refused.None? <==>
      forall f :: f in fields && Position(f) < n ==> FieldProblem(f, fields[f]).None?
  {
    if n > 0 {
      RefusedWhen(texts, fields, n - 1);
      var g := EDITABLE[n - 1];
      forall f ensures Position(f) < n <==> Position(f) < n - 1 || f == g {
        PositionIsIndex(n - 1, f);
      }
    }
  }

  /** A text the screen may send: unchanged, or trimmed, in limit and, for a pincode, well formed. */
  predicate TextFits(f: Field, before: Texts, after: Texts)
  {
    before.Get(f) == after.Get(f)
    || (FieldProblem(f, Text(after.Get(f))).None? && Trim(after.Get(f)) == after.Get(f))
  }

  lemma {:induction false} DiffTextsAll(before: Texts, after: Texts, f: Field)
    ensures f in DiffTexts(before, after, |EDITABLE|) <==> before.Get(f) != after.Get(f)
  {
    assert EDITABLE[..|EDITABLE|] == EDITABLE && EDITABLE[Position(f)] == f;
  }

  lemma {:induction false} FittingTextsAccepted(before: Texts, after: Texts)
    requires forall f :: TextFits(f, before, after)
    ensures EditFields(before, DiffTexts(before, after, |EDITABLE|), |EDITABLE|).refused.None?
  {
    var fields := DiffTexts(before, after, |EDITABLE|);
    forall f | f in fields ensures FieldProblem(f, fields[f]).None? {
      assert TextFits(f, before, after);
    }
    RefusedWhen(before, fields, |EDITABLE|);
  }

  lemma {:induction false} FittingTextArrives(before: Texts, after: Texts, f: Field)
    requires TextFits(f, before, after)
    requires EditFields(before, DiffTexts(before, after, |EDITABLE|), |EDITABLE|).refused.None?
    ensures EditFields(before, DiffTexts(before, after, |EDITABLE|), |EDITABLE|).texts.Get(f) == after.Get(f)
  {
    DiffTextsAll(before, after, f);
    EditedText(before, DiffTexts(before, after, |EDITABLE|), |EDITABLE|, f);
  }

  lemma {:induction false} FittingTextsArrive(before: Texts, after: Texts)
    requires forall f :: TextFits(f, before, after)
    ensures EditFields(before, DiffTexts(before, after, |EDITABLE|), |EDITABLE|).refused.None?
    ensures EditFields(before, DiffTexts(before, after, |EDITABLE|), |EDITABLE|).texts == after
  {
    FittingTextsAccepted(before, after);
    var texts := EditFields(before, DiffTexts(before, after, |EDITABLE|), |EDITABLE|).texts;
    forall f ensures texts.Get(f) == after.Get(f) {
      FittingTextArrives(before, after, f);
    }
    TextsEqual(texts, after);
  }

  lemma {:induction false} ArrivingTextsFit(before: Texts, after: Texts, f: Field)
    requires EditFields(before, DiffTexts(before, after, |EDITABLE|), |EDITABLE|).refused.None?
    requires EditFields(before, DiffTexts(before, after, |EDITABLE|), |EDITABLE|).texts == after
    ensures TextFits(f, before, after)
  {
    var fields := DiffTexts(before, after, |EDITABLE|);
    RefusedWhen(before, fields, |EDITABLE|);
    DiffTextsAll(before, after, f);
    EditedText(before, fields, |EDITABLE|, f);
  }

  /** Sending the differences of two sets of texts brings the one to the other exactly when all fit. */
  lemma {:induction false} TextsRoundTrip(before: Texts, after: Texts)
    ensures var e := EditFields(before, DiffTexts(before, after, |EDITABLE|), |EDITABLE|);
      e.refused.None? && e.texts == after <==> forall f :: TextFits(f, before, after)
  {
    var e := EditFields(before, DiffTexts(before, after, |EDITABLE|), |EDITABLE|);
    if forall f :: TextFits(f, before, after) {
      FittingTextsArrive(before, after);
    }
    if e.refused.None? && e.texts == after {
      forall f ensures TextFits(f, before, after) {
        ArrivingTextsFit(before, after, f);
      }
    }
  }

  /** A plausible place marked by hand to 5 m, that the stored row did not have marked by hand already. */
  predicate HandPlaced(before: Placement, after: Placement, plausible: (real, real) -> bool)
  {
    && after.geoSource == "manual" && after.accuracyMeters == Some(5.0)
    && after.latitude.Some? && after.longitude.Some? && plausible(after.latitude.value, after.longitude.value)
    && !(before.geoSource == "manual" && before.latitude == after.latitude && before.longitude == after.longitude)
  }

  /** The screen's row is one the decisions can express. */
  ghost predicate Expressible(before: Row, after: Row, plausible: (real, real) -> bool)
  {
    && after.facts == before.facts
    && (forall f :: TextFits(f, before.texts, after.texts))
    && (after.place == before.place || HandPlaced(before.place, after.place, plausible))
  }

  /** One row's round trip: its decisions bring the stored row to the screen's exactly when it is expressible. */
  lemma RowRoundTrip(before: Row, after: Row, plausible: (real, real) -> bool)
    requires after.rowNumber == before.rowNumber
    ensures var o := EditRow(before, DiffRow(before, after), plausible);
      o.refused.None? && SameContent(o.row, after) <==> Expressible(before, after, plausible)
  {
    TextsRoundTrip(before.texts, after.texts);
  }

  ghost predicate DistinctNumbers(rows: seq<Row>)
  {
    forall i, j :: 0 <= i < j < |rows| ==> rows[i].rowNumber != rows[j].rowNumber
  }

  /** What the decisions hold for one stored row, when row numbers are distinct. */
  lemma {:induction false} DiffHolds(original: seq<Row>, screen: map<int, Row>, mode: Mode, n: nat, k: nat)
    requires DistinctNumbers(original) && n <= |original| && k < |original|
    ensures var d, number := Diff(original, screen, mode, n), original[k].rowNumber;
      && d.mode == mode
      && (number in d.excluded <==> k < n && number !in screen)
      && EditOf(d, number) == if k < n && number in screen then DiffRow(original[k], screen[number]) else NO_EDIT
  {
    if n > 0 {
      DiffHolds(original, screen, mode, n - 1, k);
    }
  }

  /** The stored rows still on screen, as the screen shows them, in file order. */
  function OnScreen(stored: seq<Row>, screen: map<int, Row>): seq<Row>
  {
    if stored == [] then []
    else
      var last := stored[|stored| - 1];
      OnScreen(stored[..|stored| - 1], screen) + if last.rowNumber in screen then [screen[last.rowNumber]] else []
  }

  /** The rows a mode commits, with their status recomputed. */
  function Committable(rows: seq<Row>, mode: Mode): seq<Row>
  {
    if rows == [] then []
    else
      var last := WithStatus(rows[|rows| - 1]);
      Committable(rows[..|rows| - 1], mode) + if IsCommittable(last, mode) then [last] else []
  }

  /** The screen comes from the file: its rows are stored rows, in order, and every one expressible. */
  ghost predicate FromFile(stored: seq<Row>, screen: map<int, Row>, plausible: (real, real) -> bool)
  {
    && (forall n <- screen :: screen[n].rowNumber == n)
    && forall i :: 0 <= i < |stored| && stored[i].rowNumber in screen ==>
         Expressible(stored[i], screen[stored[i].rowNumber], plausible)
  }

  /** The verdict on one stored row, in terms of what the screen shows. */
  predicate VerdictShows(v: Verdict, original: Row, screen: map<int, Row>, mode: Mode)
  {
    if original.rowNumber !in screen then v.Remove?
    else
      var row := WithStatus(screen[original.rowNumber]);
      if IsCommittable(row, mode) then v == Commit(row) else v.Leave?
  }

  lemma {:induction false} JudgeOnScreen(stored: seq<Row>, screen: map<int, Row>, mode: Mode,
                                         plausible: (real, real) -> bool, k: nat)
    requires DistinctNumbers(stored) && k < |stored| && FromFile(stored, screen, plausible)
    ensures VerdictShows(Judge(stored[k], Diff(stored, screen, mode, |stored|), plausible), stored[k], screen, mode)
  {
    DiffHolds(stored, screen, mode, |stored|, k);
    var number := stored[k].rowNumber;
    if number in screen {
      RowRoundTrip(stored[k], screen[number], plausible);
      StatusFollowsContent(EditRow(stored[k], DiffRow(stored[k], screen[number]), plausible).row, screen[number]);
    }
  }

  lemma {:induction false} CommittableGrows(rows: seq<Row>, row: Row, mode: Mode)
    ensures Committable(rows + [row], mode) ==
      Committable(rows, mode) + if IsCommittable(WithStatus(row), mode) then [WithStatus(row)] else []
  {
    assert (rows + [row])[..|rows|] == rows;
  }

  lemma {:induction false} VerdictsCommitTheScreen(vs: seq<Verdict>, stored: seq<Row>, screen: map<int, Row>,
                                                   mode: Mode)
    requires |vs| == |stored|
    requires forall k :: 0 <= k < |stored| ==> VerdictShows(vs[k], stored[k], screen, mode)
    ensures Committed(vs) == Committable(OnScreen(stored, screen), mode)
  {
    if stored != [] {
      var n := |stored| - 1;
      VerdictsCommitTheScreen(vs[..n], stored[..n], screen, mode);
      assert VerdictShows(vs[n], stored[n], screen, mode);
      var shown, number := OnScreen(stored[..n], screen), stored[n].rowNumber;
      if number in screen {
        CommittableGrows(shown, screen[number], mode);
      } else {
        assert shown + [] == shown && Committed(vs[..n]) + [] == Committed(vs[..n]);
      }
    }
  }

  /**
   * The round trip: applying the decisions the screen sends commits exactly the screen's rows, their
   * status recomputed, that the mode commits.
   */
  lemma {:induction false} RoundTrip(stored: seq<Row>, screen: seq<Row>, mode: Mode, plausible: (real, real) -> bool)
    requires DistinctNumbers(stored) && FromFile(stored, ByRow(screen), plausible)
    requires screen == OnScreen(stored, ByRow(screen))
    ensures Committed(Judged(stored, Diff(stored, ByRow(screen), mode, |stored|), plausible))
      == Committable(screen, mode)
  {
    var vs := Judged(stored, Diff(stored, ByRow(screen), mode, |stored|), plausible);
    forall k: nat | k < |stored| ensures VerdictShows(vs[k], stored[k], ByRow(screen), mode) {
      JudgeOnScreen(stored, ByRow(screen), mode, plausible, k);
    }
    VerdictsCommitTheScreen(vs, stored, ByRow(screen), mode);
  }
}

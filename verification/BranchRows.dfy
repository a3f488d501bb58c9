/**
 * The rows of a branch import under review, and the one rule for their readiness
 * (packages/shared/src/branch-import.ts). A text that is absent and a text that is empty are one
 * and the same here, as they are to every rule of the source.
 */
module BranchRows {

  import opened Common

  /** What the review screen lets be corrected by hand. */
  datatype Field = SolId | Name | State | District | Address | Pincode

  const EDITABLE: seq<Field> := [SolId, Name, State, District, Address, Pincode]

  datatype Texts = Texts(
    solId: string, name: string, state: string, district: string, address: string, pincode: string)
  {

    function Get(f: Field): string
    {
      match f
      case SolId => solId
      case Name => name
      case State => state
      case District => district
      case Address => address
      case Pincode => pincode
    }

    function With(f: Field, value: string): (t: Texts)
      ensures t.Get(f) == value
      ensures forall g :: g != f ==> t.Get(g) == Get(g)
    {
      match f
      case SolId => this.(solId := value)
      case Name => this.(name := value)
      case State => this.(state := value)
      case District => this.(district := value)
      case Address => this.(address := value)
      case Pincode => this.(pincode := value)
    }
  }

  lemma TextsEqual(a: Texts, b: Texts)
    requires forall f :: a.Get(f) == b.Get(f)
    ensures a == b
  {
    assert a.Get(SolId) == b.Get(SolId) && a.Get(Name) == b.Get(Name) && a.Get(State) == b.Get(State);
    assert a.Get(District) == b.Get(District) && a.Get(Address) == b.Get(Address) && a.Get(Pincode) == b.Get(Pincode);
  }

  /** Where a branch is and how that is known. */
  datatype Placement = Placement(
    latitude: Option<real>, longitude: Option<real>, geoSource: string, accuracyMeters: Option<real>)

  datatype Severity = Critical | Warning

  datatype ClientMismatch = ClientMismatch(severity: Severity, reason: string)

  datatype GeographyProblem = GeographyProblem(state: string, district: string, reason: string)

  /** What only the server may say about a row. */
  datatype ServerFacts = ServerFacts(
    city: string, packetCount: Option<int>, managerName: string, phone: string, email: string,
    existsInMaster: bool, masterBranchId: string, isArchivedInMaster: bool,
    suggestedDetails: map<string, string>, warnings: seq<string>,
    clientMismatch: Option<ClientMismatch>, geographyProblem: Option<GeographyProblem>)

  datatype Status = Ready | Coarse | NeedsDetails

  datatype Row = Row(
    rowNumber: int, texts: Texts, place: Placement, facts: ServerFacts, status: Status, missing: seq<Field>)

  // ---- Text ----

  /** White space and line ends, as sections 12.2 and 12.3 of ECMA-262 list them. */
  predicate IsBlank(c: char)
  {
    || c in " \t\n\r"
    || c in "\U{000B}\U{000C}\U{00A0}\U{1680}\U{2028}\U{2029}\U{202F}\U{205F}\U{3000}\U{FEFF}"
    || '\U{2000}' <= c <= '\U{200A}'
  }

  function TrimLeft(s: string): string
  {
    if s != "" && IsBlank(s[0]) then TrimLeft(s[1..]) else s
  }

  function TrimRight(s: string): string
  {
    if s != "" && IsBlank(s[|s| - 1]) then TrimRight(s[..|s| - 1]) else s
  }

  function Trim(s: string): string { TrimRight(TrimLeft(s)) }

  lemma {:induction false} TrimLeftExactly(s: string) returns (i: nat)
    ensures i <= |s| && TrimLeft(s) == s[i..] && (forall k :: 0 <= k < i ==> IsBlank(s[k]))
    ensures i < |s| ==> !IsBlank(s[i])
  {
    if s != "" && IsBlank(s[0]) {
      i := TrimLeftExactly(s[1..]);
      i := i + 1;
    } else {
      i := 0;
    }
  }

  lemma {:induction false} TrimRightExactly(s: string) returns (j: nat)
    ensures j <= |s| && TrimRight(s) == s[..j] && (forall k :: j <= k < |s| ==> IsBlank(s[k]))
    ensures j > 0 ==> !IsBlank(s[j - 1])
  {
    if s != "" && IsBlank(s[|s| - 1]) {
      j := TrimRightExactly(s[..|s| - 1]);
      assert s[..|s| - 1][..j] == s[..j];
    } else {
      j := |s|;
    }
  }

  /** Trimming takes off the blanks at both ends and nothing else. */
  lemma TrimExactly(s: string) returns (i: nat, j: nat)
    ensures i <= j <= |s| && Trim(s) == s[i..j]
    ensures forall k :: 0 <= k < i || j <= k < |s| ==> IsBlank(s[k])
    ensures i < j ==> !IsBlank(s[i]) && !IsBlank(s[j - 1])
  {
    i := TrimLeftExactly(s);
    j := TrimRightExactly(s[i..]);
    assert s[i..][..j] == s[i..i + j];
    assert forall k :: i <= k < |s| ==> s[k] == s[i..][k - i];
    assert j > 0 ==> s[i + j - 1] == s[i..][j - 1];
    j := i + j;
  }

  function Upper(s: string): string
  {
    seq(|s|, i requires 0 <= i < |s| => UpperChar(s[i]))
  }

  function Norm(s: string): string { Upper(Trim(s)) }

  /** Two texts say the same but for blanks around them and the case of letters. */
  predicate SaysTheSame(a: string, b: string)
  {
    |Trim(a)| == |Trim(b)| && forall i :: 0 <= i < |Trim(a)| ==> UpperChar(Trim(a)[i]) == UpperChar(Trim(b)[i])
  }

  lemma NormCompares(a: string, b: string)
    ensures Norm(a) == Norm(b) <==> SaysTheSame(a, b)
  {
    if Norm(a) == Norm(b) {
      forall i | 0 <= i < |Trim(a)| ensures UpperChar(Trim(a)[i]) == UpperChar(Trim(b)[i]) {
        assert Norm(a)[i] == Norm(b)[i];
      }
    }
  }

  // ---- Readiness ----

  const READY_ACCURACY_METERS := 250.0

  /** Which of the five fields every branch needs are blank. */
  function MissingFields(t: Texts): seq<Field>
  {
    (if t.solId == "" then [SolId] else []) + (if t.name == "" then [Name] else [])
    + (if t.state == "" then [State] else []) + (if t.district == "" then [District] else [])
    + (if t.address == "" then [Address] else [])
  }

  /** Neither half of the rejected state and district pair has been corrected. */
  predicate GeographyUnresolved(row: Row)
  {
    && row.facts.geographyProblem.Some?
    && Norm(row.texts.state) == Norm(row.facts.geographyProblem.value.state)
    && Norm(row.texts.district) == Norm(row.facts.geographyProblem.value.district)
  }

  predicate CriticalMismatch(row: Row)
  {
    row.facts.clientMismatch.Some? && row.facts.clientMismatch.value.severity == Critical
  }

  function ReviewStatus(row: Row): Status
  {
    if row.texts.solId == "" || row.texts.name == "" || row.texts.state == "" || CriticalMismatch(row) then NeedsDetails
    else if GeographyUnresolved(row) then NeedsDetails
    else if row.place.geoSource == "manual" then Ready
    else if row.place.accuracyMeters.Some? && row.place.accuracyMeters.value <= READY_ACCURACY_METERS then Ready
    else Coarse
  }

  function WithStatus(row: Row): Row
  {
    row.(missing := MissingFields(row.texts), status := ReviewStatus(row))
  }

  /** Rows that say the same, whatever status they carry. */
  predicate SameContent(a: Row, b: Row)
  {
    a.rowNumber == b.rowNumber && a.texts == b.texts && a.place == b.place && a.facts == b.facts
  }

  lemma StatusFollowsContent(a: Row, b: Row)
    requires SameContent(a, b)
    ensures WithStatus(a) == WithStatus(b)
  {
  }

  // ---- Readiness, said again without the status ----

  /** The three texts no branch can be planned without. */
  predicate IsNamed(t: Texts) { t.solId != "" && t.name != "" && t.state != "" }

  predicate FromAnotherBank(f: ServerFacts) { f.clientMismatch.Some? && f.clientMismatch.value.severity == Critical }

  /** The state and district are still those that were not recognised. */
  predicate IsMisplaced(t: Texts, f: ServerFacts)
  {
    && f.geographyProblem.Some?
    && SaysTheSame(t.state, f.geographyProblem.value.state)
    && SaysTheSame(t.district, f.geographyProblem.value.district)
  }

  /** Placed by hand, or known to within a quarter of a kilometre. */
  predicate IsPinpointed(p: Placement)
  {
    p.geoSource == "manual" || (p.accuracyMeters.Some? && p.accuracyMeters.value <= 250.0)
  }

  /** What each status says of the row. */
  lemma StatusExactly(row: Row)
    ensures ReviewStatus(row) == NeedsDetails <==>
      !IsNamed(row.texts) || FromAnotherBank(row.facts) || IsMisplaced(row.texts, row.facts)
    ensures ReviewStatus(row) == Ready ==> IsPinpointed(row.place)
    ensures ReviewStatus(row) == Coarse ==> !IsPinpointed(row.place)
  {
    if row.facts.geographyProblem.Some? {
      NormCompares(row.texts.state, row.facts.geographyProblem.value.state);
      NormCompares(row.texts.district, row.facts.geographyProblem.value.district);
    }
  }

  lemma UnresolvedIsMisplaced(row: Row)
    ensures GeographyUnresolved(row) <==> IsMisplaced(row.texts, row.facts)
  {
    if row.facts.geographyProblem.Some? {
      NormCompares(row.texts.state, row.facts.geographyProblem.value.state);
      NormCompares(row.texts.district, row.facts.geographyProblem.value.district);
    }
  }

  /** The missing fields are the blank ones, the pincode aside. */
  lemma MissingExactly(t: Texts, f: Field)
    ensures f in MissingFields(t) <==> f != Pincode && t.Get(f) == ""
  {
  }

  datatype Mode = AllValid | ReadyOnly

  predicate IsCommittable(row: Row, mode: Mode)
  {
    !CriticalMismatch(row) && (if mode == ReadyOnly then row.status == Ready else row.status != NeedsDetails)
  }
}

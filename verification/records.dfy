/**
 * The participant record (one document per student per leader), the schema checks a
 * create runs, and the store of records with its invariants.
 */
module Records {
  import opened Wrappers
  import opened Catalog
  import Seqs

  datatype Department = CS | IT | AI | DS | CA
  datatype Degree = UG | PG
  datatype Food = Vegetarian | NonVegetarian

  /** The schema's department enum. */
  function DepartmentOf(s: string): (r: Option<Department>)
    ensures r.Some? <==> s in {"cs", "it", "ai", "ds", "ca"}
  {
    match s
    case "cs" => Some(CS)
    case "it" => Some(IT)
    case "ai" => Some(AI)
    case "ds" => Some(DS)
    case "ca" => Some(CA)
    case _ => None
  }

  /** The schema's degree enum. */
  function DegreeOf(s: string): (r: Option<Degree>)
    ensures r.Some? <==> s == "ug" || s == "pg"
  {
    if s == "ug" then Some(UG) else if s == "pg" then Some(PG) else None
  }

  /** The food preferences the registration route accepts. */
  function FoodOf(s: string): (r: Option<Food>)
    ensures r.Some? <==> s == "vegetarian" || s == "non-vegetarian"
  {
    if s == "vegetarian" then Some(Vegetarian)
    else if s == "non-vegetarian" then Some(NonVegetarian)
    else None
  }

  /** A stored participant record. `event2`/`slot2` are the nullable second event. */
  datatype Record = Record(
    leaderId: string,
    name: string,
    registerNumber: string,
    mobile: string,
    college: string,
    department: Department,
    degree: Degree,
    foodPreference: Option<Food>,
    event1: string,
    slot1: Slot,
    event2: Option<string>,
    slot2: Option<Slot>)
  {
    /** The record names `event` as its first or its second event. */
    predicate References(event: string) {
      event1 == event || event2 == Some(event)
    }
  }

  /** The object the route hands to `create`: strings as received, second event absent. */
  datatype NewDoc = NewDoc(
    leaderId: string,
    name: string,
    registerNumber: string,
    mobile: string,
    college: string,
    department: string,
    degree: string,
    foodPreference: string,
    event1: string,
    slot1: Slot)

  /** Every `required: true` string path of the schema holds a non-empty string. */
  predicate RequiredPresent(d: NewDoc) {
    d.leaderId != "" && d.name != "" && d.registerNumber != "" && d.mobile != ""
    && d.college != "" && d.event1 != ""
  }

  /**
   * Document validation on create: required paths present and enums respected; the
   * second event defaults to null. The food preference is kept (see `CastAsWritten`).
   */
  function Cast(d: NewDoc): (r: Option<Record>)
    ensures r.Some? <==> RequiredPresent(d) && DepartmentOf(d.department).Some? && DegreeOf(d.degree).Some?
    ensures r.Some? ==>
      && r.value.leaderId == d.leaderId && r.value.registerNumber == d.registerNumber
      && r.value.name == d.name && r.value.mobile == d.mobile && r.value.college == d.college
      && r.value.event1 == d.event1 && r.value.slot1 == d.slot1
      && r.value.event2 == None && r.value.slot2 == None
      && r.value.foodPreference == FoodOf(d.foodPreference)
    ensures r.Some? ==> DepartmentOf(d.department) == Some(r.value.department) && DegreeOf(d.degree) == Some(r.value.degree)
  {
    if !RequiredPresent(d) then None
    else match (DepartmentOf(d.department), DegreeOf(d.degree))
      case (Some(dep), Some(deg)) =>
        Some(Record(d.leaderId, d.name, d.registerNumber, d.mobile, d.college, dep, deg,
                    FoodOf(d.foodPreference), d.event1, d.slot1, None, None))
      case _ => None
  }

  /**
   * The same validation as the schema declares it: `foodPreference` is not a path of
   * the schema, so strict mode discards it on create.
   */
  function CastAsWritten(d: NewDoc): (r: Option<Record>)
    ensures r.Some? <==> Cast(d).Some?
    ensures r.Some? ==> r.value == Cast(d).value.(foodPreference := None)
  {
    match Cast(d)
    case None => None
    case Some(rec) => Some(rec.(foodPreference := None))
  }

  /** Every preference the schema would parse is dropped by the schema as written. */
  lemma FoodPreferenceDroppedAsWritten(d: NewDoc)
    requires Cast(d).Some? && FoodOf(d.foodPreference).Some?
    ensures CastAsWritten(d).value.foodPreference == None
    ensures Cast(d).value.foodPreference == FoodOf(d.foodPreference) != None
  {
  }

  /**
   * The per-record state machine: one event in a known slot, optionally a second
   * event in the other single slot. A `Both`-slot event admits no second event.
   */
  predicate WellFormed(r: Record) {
    && r.event1 != ""
    && SlotOf(r.event1) == Some(r.slot1)
    && (r.event2.Some? <==> r.slot2.Some?)
    && (r.event2.Some? ==>
          && SlotOf(r.event2.value) == Some(r.slot2.value)
          && r.slot1 != Both && r.slot2.value != Both
          && r.slot1 != r.slot2.value)
  }

  /** A well-formed record never holds the same event twice nor two events in one window. */
  lemma WellFormedEventsDiffer(r: Record)
    requires WellFormed(r)
    ensures r.event2.Some? ==> r.event2.value != r.event1 && r.event2.value != ""
    ensures r.slot1 == Both || r.event1 == BidMayhem ==> r.event2.None? && r.slot2.None?
  {
  }

  type Store = seq<Record>

  /** The leader a team record belongs to. */
  function OfLeader(leaderId: string): Record -> bool {
    (x: Record) => x.leaderId == leaderId
  }

  /** The store holds a record for this student under this leader. */
  predicate HasKey(s: Store, leaderId: string, registerNumber: string) {
    exists i :: 0 <= i < |s| && s[i].leaderId == leaderId && s[i].registerNumber == registerNumber
  }

  /** The unique index on `(leaderId, registerNumber)`. */
  predicate UniqueKeys(s: Store) {
    forall i, j :: 0 <= i < j < |s| ==>
      s[i].leaderId != s[j].leaderId || s[i].registerNumber != s[j].registerNumber
  }

  /** `countDocuments({ leaderId })`. */
  function CountFor(s: Store, leaderId: string): (n: nat)
    ensures n <= |s|
  {
    |Seqs.Filter(s, OfLeader(leaderId))|
  }

  const MaxStudents := 15

  /** The store invariant every route preserves. */
  predicate Valid(s: Store) {
    && UniqueKeys(s)
    && (forall i :: 0 <= i < |s| ==> WellFormed(s[i]))
    && (forall i :: 0 <= i < |s| ==> CountFor(s, s[i].leaderId) <= MaxStudents)
  }

  /** `create`: fails on the unique index or on document validation, else appends. */
  function Insert(s: Store, d: NewDoc): (r: Option<Store>)
    ensures r.Some? <==> !HasKey(s, d.leaderId, d.registerNumber) && Cast(d).Some?
    ensures r.Some? ==> r.value == s + [Cast(d).value]
  {
    if HasKey(s, d.leaderId, d.registerNumber) then None
    else match Cast(d)
      case None => None
      case Some(rec) => Some(s + [rec])
  }

  /**
   * `$set: { event2, slot2 }` on this leader's record for `registerNumber`: that record
   * takes the new second event and keeps every other field; all other records stay.
   */
  function SetSecond(s: Store, leaderId: string, registerNumber: string,
                     e2: Option<string>, s2: Option<Slot>): (r: Store)
    ensures |r| == |s|
    ensures forall i :: 0 <= i < |s| && !(s[i].leaderId == leaderId && s[i].registerNumber == registerNumber) ==>
      r[i] == s[i]
    ensures forall i :: 0 <= i < |s| && s[i].leaderId == leaderId && s[i].registerNumber == registerNumber ==>
      r[i].event2 == e2 && r[i].slot2 == s2 && r[i] == s[i].(event2 := r[i].event2, slot2 := r[i].slot2)
  {
    seq(|s|, i requires 0 <= i < |s| =>
      if s[i].leaderId == leaderId && s[i].registerNumber == registerNumber
      then s[i].(event2 := e2, slot2 := s2) else s[i])
  }
}

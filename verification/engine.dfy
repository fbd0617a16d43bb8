/**
 * The read-only half of team registration: every check the route runs before its
 * first write, in the route's order, and the write plan it produces when all pass.
 */
module Engine {
  import opened Wrappers
  import opened JsStrings
  import opened Catalog
  import opened Records
  import Seqs
  import Validators

  /** The two leader attributes the route reads. */
  datatype Leader = Leader(userid: string, college: string, department: string)

  /** One entry of the submitted team; a missing field is the empty string. */
  datatype Participant = Participant(
    name: string, registerNumber: string, mobile: string, degree: string, foodPreference: string)

  datatype Request = Request(leaderId: string, event: string, participants: seq<Participant>)

  /** Why a registration was refused; message text and status codes are left out. */
  datatype RegError =
    | MissingInput | LeaderNotFound | IncompleteProfile | InvalidEvent | EventAlreadyTaken
    | DuplicateInBatch
    | MissingFields | InvalidMobile | InvalidDegree | MissingFoodPreference | InvalidFoodPreference
    | CapacityExceeded
    | InBidMayhem | BidMayhemNotCombinable | TwoEventCapReached | SlotConflict
    | BatchWriteFailed
  {
    predicate IsFieldError() {
      MissingFields? || InvalidMobile? || InvalidDegree? || MissingFoodPreference? || InvalidFoodPreference?
    }
    predicate IsConflictError() {
      InBidMayhem? || BidMayhemNotCombinable? || TwoEventCapReached? || SlotConflict?
    }
    /** The errors raised before the team itself is looked at. */
    predicate IsGateError() {
      MissingInput? || LeaderNotFound? || IncompleteProfile? || InvalidEvent? || EventAlreadyTaken?
    }
    /** The errors raised once the leader and the event have been accepted. */
    predicate IsTeamError() {
      DuplicateInBatch? || IsFieldError() || CapacityExceeded? || IsConflictError()
    }
  }

  /** `User.findOne({ userid })`: the first leader with that id. */
  function FindLeader(leaders: seq<Leader>, id: string): (r: Option<Leader>)
    ensures r.None? <==> forall i :: 0 <= i < |leaders| ==> leaders[i].userid != id
    ensures r.Some? ==> exists i :: (0 <= i < |leaders| && leaders[i] == r.value && r.value.userid == id
      && forall j :: 0 <= j < i ==> leaders[j].userid != id)
    decreases |leaders|
  {
    if |leaders| == 0 then None
    else if leaders[0].userid == id then Some(leaders[0])
    else
      var r := FindLeader(leaders[1..], id);
      assert r.Some? ==> exists i :: (0 <= i < |leaders| && leaders[i] == r.value
        && forall j :: 0 <= j < i ==> leaders[j].userid != id) by {
        if r.Some? {
          var i :| 0 <= i < |leaders[1..]| && leaders[1..][i] == r.value
                   && forall j :: 0 <= j < i ==> leaders[1..][j].userid != id;
          assert leaders[i + 1] == r.value;
        }
      }
      r
  }

  // ---------------------------------------------------------------------------
  // Normalisation of the submitted values

  predicate IsSpaceOrHyphen(c: char) { IsWhitespace(c) || c == '-' }
  predicate KeptInMobile(c: char) { !IsSpaceOrHyphen(c) }

  /** `p.mobile.replace(/[\s\-]/g, "")`. */
  function CleanMobile(m: string): string {
    Seqs.Filter(m, KeptInMobile)
  }

  /**
   * On a number typed with digits, spaces and hyphens, the signup validator's `\D` strip and
   * the route's `[\s\-]` strip agree, so both accept the same numbers.
   */
  lemma MobileChecksAgree(m: string)
    requires forall i :: 0 <= i < |m| ==> IsDigit(m[i]) || IsSpaceOrHyphen(m[i])
    ensures Validators.ValidateMobileNumber(m).None? <==> m != "" && Validators.IsIndianMobile(CleanMobile(m))
  {
    Seqs.FilterAgree(m, IsDigit, KeptInMobile);
  }

  /** The upper-cased register numbers of the batch, in submission order. */
  function RegNumbers(ps: seq<Participant>): (regs: seq<string>)
    ensures |regs| == |ps|
    ensures forall i :: 0 <= i < |ps| ==> regs[i] == ToUpper(ps[i].registerNumber)
  {
    seq(|ps|, i requires 0 <= i < |ps| => ToUpper(ps[i].registerNumber))
  }

  // ---------------------------------------------------------------------------
  // Duplicate register numbers: `regNumbers.filter((r, i) => regNumbers.indexOf(r) !== i)`

  /** `indexOf`, with `|s|` standing for -1. */
  function FirstIndex(s: seq<string>, x: string): (k: nat)
    ensures k <= |s|
    ensures k < |s| ==> s[k] == x
    ensures forall j :: 0 <= j < k ==> s[j] != x
    decreases |s|
  {
    if |s| == 0 then 0
    else if s[0] == x then 0
    else 1 + FirstIndex(s[1..], x)
  }

  /** The entries of `regs[from..]` that occur earlier in `regs`. */
  function DupFrom(regs: seq<string>, from: nat): seq<string>
    requires from <= |regs|
    decreases |regs| - from
  {
    if from == |regs| then []
    else
      var rest := DupFrom(regs, from + 1);
      if FirstIndex(regs, regs[from]) != from then [regs[from]] + rest else rest
  }

  /** Nothing is reported from `from` on exactly when no entry there repeats an earlier one. */
  lemma {:induction false} DupFromEmpty(regs: seq<string>, from: nat)
    requires from <= |regs|
    ensures |DupFrom(regs, from)| == 0 <==> forall i, j :: 0 <= j < i && from <= i < |regs| ==> regs[j] != regs[i]
    decreases |regs| - from
  {
    if from < |regs| {
      DupFromEmpty(regs, from + 1);
      var k := FirstIndex(regs, regs[from]);
      assert k <= from;
    }
  }

  /** `dupInTeam`. */
  function DupInTeam(regs: seq<string>): seq<string> {
    DupFrom(regs, 0)
  }

  ghost predicate Distinct(regs: seq<string>) {
    forall i, j :: 0 <= i < j < |regs| ==> regs[i] != regs[j]
  }

  /** The route reports duplicates exactly when two entries of the batch coincide. */
  lemma DupInTeamDetectsDuplicates(regs: seq<string>)
    ensures |DupInTeam(regs)| == 0 <==> Distinct(regs)
  {
    DupFromEmpty(regs, 0);
  }

  // ---------------------------------------------------------------------------
  // Existing students

  /** The filter `{ leaderId, registerNumber: { $in: regNumbers } }`. */
  function InBatch(leaderId: string, regs: seq<string>): Record -> bool {
    (x: Record) => x.leaderId == leaderId && x.registerNumber in regs
  }

  /** `existingDocs`, in store order. */
  function ExistingDocs(s: Store, leaderId: string, regs: seq<string>): seq<Record> {
    Seqs.Filter(s, InBatch(leaderId, regs))
  }

  /** `existingRegSet`. */
  function ExistingRegs(docs: seq<Record>): set<string> {
    set d | d in docs :: d.registerNumber
  }

  /** A batch entry is an existing student exactly when the store has its key. */
  lemma ExistingRegsMatchStore(s: Store, leaderId: string, regs: seq<string>, u: string)
    requires u in regs
    ensures u in ExistingRegs(ExistingDocs(s, leaderId, regs)) <==> HasKey(s, leaderId, u)
  {
    var docs := ExistingDocs(s, leaderId, regs);
    if HasKey(s, leaderId, u) {
      var i :| 0 <= i < |s| && s[i].leaderId == leaderId && s[i].registerNumber == u;
      assert InBatch(leaderId, regs)(s[i]);
      assert s[i] in docs;
    }
    if u in ExistingRegs(docs) {
      var d :| d in docs && d.registerNumber == u;
      var k :| 0 <= k < |docs| && docs[k] == d;
      assert d in s;
    }
  }

  /** `existingDocs.find(d => d.registerNumber === reg)`. */
  function FindByReg(docs: seq<Record>, reg: string): (r: Option<Record>)
    ensures r.Some? ==> r.value in docs && r.value.registerNumber == reg
    ensures r.None? ==> reg !in ExistingRegs(docs)
    decreases |docs|
  {
    if |docs| == 0 then None
    else if docs[0].registerNumber == reg then Some(docs[0])
    else
      FindByReg(docs[1..], reg)
  }

  // ---------------------------------------------------------------------------
  // Per-participant field checks

  /** The checks on one entry, in the route's order; food only for a new student. */
  function FieldError(p: Participant, existing: bool): (r: Option<RegError>)
    ensures r.Some? ==> r.value.IsFieldError()
  {
    if p.name == "" || p.registerNumber == "" || p.mobile == "" || p.degree == "" then Some(MissingFields)
    else if !Validators.IsIndianMobile(CleanMobile(p.mobile)) then Some(InvalidMobile)
    else if p.degree != "ug" && p.degree != "pg" then Some(InvalidDegree)
    else if !existing && p.foodPreference == "" then Some(MissingFoodPreference)
    else if !existing && p.foodPreference != "vegetarian" && p.foodPreference != "non-vegetarian"
    then Some(InvalidFoodPreference)
    else None
  }

  /**
   * An entry passes exactly when its four fields are present, its cleaned mobile number is
   * an Indian mobile number, its degree is one of the enum's, and a new student names a
   * food preference of the enum.
   */
  lemma FieldErrorAccepts(p: Participant, existing: bool)
    ensures FieldError(p, existing).None? <==>
      && p.name != "" && p.registerNumber != "" && p.mobile != "" && p.degree != ""
      && Validators.IsIndianMobile(CleanMobile(p.mobile))
      && DegreeOf(p.degree).Some?
      && (!existing ==> FoodOf(p.foodPreference).Some?)
  {
  }

  /** The first entry whose checks fail, scanning the batch in order. */
  function FirstFieldError(ps: seq<Participant>, known: set<string>): (r: Option<RegError>)
    ensures r.Some? ==> r.value.IsFieldError()
    decreases |ps|
  {
    if |ps| == 0 then None
    else
      var e := FieldError(ps[0], ToUpper(ps[0].registerNumber) in known);
      if e.Some? then e else FirstFieldError(ps[1..], known)
  }

  /** The scan reports nothing exactly when every entry passes, else the first failure's error. */
  lemma {:induction false} FirstFieldErrorSpec(ps: seq<Participant>, known: set<string>)
    ensures FirstFieldError(ps, known).None? <==>
      forall i :: 0 <= i < |ps| ==> FieldError(ps[i], ToUpper(ps[i].registerNumber) in known).None?
    ensures FirstFieldError(ps, known).Some? ==> exists i :: (0 <= i < |ps|
      && FieldError(ps[i], ToUpper(ps[i].registerNumber) in known) == FirstFieldError(ps, known)
      && forall j :: 0 <= j < i ==> FieldError(ps[j], ToUpper(ps[j].registerNumber) in known).None?)
    decreases |ps|
  {
    if |ps| > 0 && FieldError(ps[0], ToUpper(ps[0].registerNumber) in known).None? {
      var r := FirstFieldError(ps[1..], known);
      FirstFieldErrorSpec(ps[1..], known);
      assert forall i :: 0 < i < |ps| ==> ps[i] == ps[1..][i - 1];
      if r.Some? {
        var i :| 0 <= i < |ps[1..]|
          && FieldError(ps[1..][i], ToUpper(ps[1..][i].registerNumber) in known) == r
          && forall j :: 0 <= j < i ==> FieldError(ps[1..][j], ToUpper(ps[1..][j].registerNumber) in known).None?;
        assert ps[i + 1] == ps[1..][i];
      }
    }
  }

  // ---------------------------------------------------------------------------
  // The 15-student cap

  function NotIn(known: set<string>): string -> bool {
    (r: string) => r !in known
  }

  /** How many batch entries have no record under the leader yet. */
  ghost function NewCount(s: Store, leaderId: string, regs: seq<string>): nat
    decreases |regs|
  {
    if |regs| == 0 then 0
    else NewCount(s, leaderId, regs[..|regs| - 1]) + (if HasKey(s, leaderId, regs[|regs| - 1]) then 0 else 1)
  }

  /** `regNumbers.filter(r => !existingRegSet.has(r)).length` counts the new students. */
  lemma {:induction false} NewStudentCountIsNewCount(s: Store, leaderId: string, regs: seq<string>, all: seq<string>)
    requires forall i :: 0 <= i < |regs| ==> regs[i] in all
    ensures |Seqs.Filter(regs, NotIn(ExistingRegs(ExistingDocs(s, leaderId, all))))| == NewCount(s, leaderId, regs)
    decreases |regs|
  {
    if |regs| > 0 {
      var last := regs[|regs| - 1];
      NewStudentCountIsNewCount(s, leaderId, regs[..|regs| - 1], all);
      ExistingRegsMatchStore(s, leaderId, all, last);
    }
  }

  // ---------------------------------------------------------------------------
  // Per-student conflict checks

  /** The checks on one existing record, in the route's order. */
  function ConflictOf(x: Record, slot: Slot): (r: Option<RegError>)
    ensures r.Some? ==> r.value.IsConflictError()
  {
    if x.event1 == BidMayhem || x.event2 == Some(BidMayhem) then Some(InBidMayhem)
    else if slot == Both && x.event1 != "" then Some(BidMayhemNotCombinable)
    else if x.event2.Some? then Some(TwoEventCapReached)
    else if x.slot1 == slot then Some(SlotConflict)
    else None
  }

  /**
   * A record admits the event exactly when it is not in Bid Mayhem, has no second event
   * yet, has no event at all if the new one is Bid Mayhem, and sits in the other window.
   */
  lemma ConflictOfAccepts(x: Record, slot: Slot)
    ensures ConflictOf(x, slot).None? <==>
      && x.event1 != BidMayhem && x.event2 != Some(BidMayhem)
      && (slot == Both ==> x.event1 == "")
      && x.event2.None?
      && x.slot1 != slot
  {
  }

  /** The first existing record that conflicts, in the order the store returns them. */
  function FirstConflict(docs: seq<Record>, slot: Slot): (r: Option<RegError>)
    ensures r.Some? ==> r.value.IsConflictError()
    decreases |docs|
  {
    if |docs| == 0 then None
    else
      var e := ConflictOf(docs[0], slot);
      if e.Some? then e else FirstConflict(docs[1..], slot)
  }

  /** The scan reports nothing exactly when no record conflicts, else the first conflict's error. */
  lemma {:induction false} FirstConflictSpec(docs: seq<Record>, slot: Slot)
    ensures FirstConflict(docs, slot).None? <==> forall i :: 0 <= i < |docs| ==> ConflictOf(docs[i], slot).None?
    ensures FirstConflict(docs, slot).Some? ==> exists i :: (0 <= i < |docs|
      && ConflictOf(docs[i], slot) == FirstConflict(docs, slot)
      && forall j :: 0 <= j < i ==> ConflictOf(docs[j], slot).None?)
    decreases |docs|
  {
    if |docs| > 0 && ConflictOf(docs[0], slot).None? {
      var r := FirstConflict(docs[1..], slot);
      FirstConflictSpec(docs[1..], slot);
      assert forall i :: 0 < i < |docs| ==> docs[i] == docs[1..][i - 1];
      if r.Some? {
        var i :| 0 <= i < |docs[1..]| && ConflictOf(docs[1..][i], slot) == r
          && forall j :: 0 <= j < i ==> ConflictOf(docs[1..][j], slot).None?;
        assert docs[i + 1] == docs[1..][i];
      }
    }
  }

  // ---------------------------------------------------------------------------
  // The write plan

  /** One write of the batch: create a new student, or set an existing one's second event. */
  datatype Action =
    | Create(doc: NewDoc)
    | Update(registerNumber: string, prevEvent2: Option<string>, prevSlot2: Option<Slot>)

  datatype Plan = Plan(leaderId: string, event: string, slot: Slot, actions: seq<Action>)

  /** The document a new student's record is created from. */
  function NewDocFor(leaderId: string, leader: Leader, event: string, slot: Slot, p: Participant): NewDoc {
    NewDoc(leaderId, p.name, ToUpper(p.registerNumber), CleanMobile(p.mobile),
           leader.college, leader.department, p.degree, p.foodPreference, event, slot)
  }

  /**
   * A new student whose fields the route accepted sends a preference the schema as
   * written drops; the corrected schema stores it.
   */
  lemma NewStudentFoodDroppedAsWritten(leaderId: string, leader: Leader, event: string, slot: Slot, p: Participant)
    requires FieldError(p, false).None? && Cast(NewDocFor(leaderId, leader, event, slot, p)).Some?
    ensures CastAsWritten(NewDocFor(leaderId, leader, event, slot, p)).value.foodPreference == None
    ensures Cast(NewDocFor(leaderId, leader, event, slot, p)).value.foodPreference == FoodOf(p.foodPreference)
    ensures FoodOf(p.foodPreference).Some?
  {
    FieldErrorAccepts(p, false);
  }

  /** The write for one entry; an update snapshots the record's second event first. */
  function ActionFor(leaderId: string, leader: Leader, event: string, slot: Slot,
                     docs: seq<Record>, p: Participant): Action
  {
    var reg := ToUpper(p.registerNumber);
    match FindByReg(docs, reg)
    case Some(x) => Update(reg, x.event2, x.slot2)
    case None => Create(NewDocFor(leaderId, leader, event, slot, p))
  }

  // ---------------------------------------------------------------------------
  // The rules, stated over the store rather than over the route's intermediate values

  ghost predicate InputPresent(req: Request) {
    req.leaderId != "" && req.event != "" && |req.participants| > 0
  }

  ghost predicate LeaderReady(leaders: seq<Leader>, req: Request) {
    && InputPresent(req)
    && FindLeader(leaders, req.leaderId).Some?
    && FindLeader(leaders, req.leaderId).value.college != ""
    && FindLeader(leaders, req.leaderId).value.department != ""
  }

  /** Some record of the leader already names the event. */
  ghost predicate EventTaken(s: Store, leaderId: string, event: string) {
    exists i :: 0 <= i < |s| && s[i].leaderId == leaderId && s[i].References(event)
  }

  ghost predicate EventOpen(leaders: seq<Leader>, s: Store, req: Request) {
    LeaderReady(leaders, req) && SlotOf(req.event).Some? && !EventTaken(s, req.leaderId, req.event)
  }

  ghost function FieldErrorAt(s: Store, req: Request, i: int): Option<RegError>
    requires 0 <= i < |req.participants|
  {
    var p := req.participants[i];
    FieldError(p, HasKey(s, req.leaderId, ToUpper(p.registerNumber)))
  }

  ghost predicate FieldsValid(s: Store, req: Request) {
    forall i :: 0 <= i < |req.participants| ==> FieldErrorAt(s, req, i).None?
  }

  /** `e` is the error of the first entry whose checks fail. */
  ghost predicate FirstFieldFailure(s: Store, req: Request, e: RegError) {
    exists i :: 0 <= i < |req.participants| && FieldErrorAt(s, req, i) == Some(e)
      && forall j :: 0 <= j < i ==> FieldErrorAt(s, req, j).None?
  }

  ghost predicate WithinCapacity(s: Store, req: Request) {
    CountFor(s, req.leaderId) + NewCount(s, req.leaderId, RegNumbers(req.participants)) <= MaxStudents
  }

  ghost predicate ConflictFree(s: Store, req: Request, slot: Slot) {
    var docs := ExistingDocs(s, req.leaderId, RegNumbers(req.participants));
    forall i :: 0 <= i < |docs| ==> ConflictOf(docs[i], slot).None?
  }

  /** `e` is the error of the first conflicting existing record. */
  ghost predicate FirstConflictIs(s: Store, req: Request, slot: Slot, e: RegError) {
    var docs := ExistingDocs(s, req.leaderId, RegNumbers(req.participants));
    exists i :: 0 <= i < |docs| && ConflictOf(docs[i], slot) == Some(e)
      && forall j :: 0 <= j < i ==> ConflictOf(docs[j], slot).None?
  }

  /** Everything checked before the capacity cap. */
  ghost predicate ChecksBeforeCap(leaders: seq<Leader>, s: Store, req: Request) {
    EventOpen(leaders, s, req) && Distinct(RegNumbers(req.participants)) && FieldsValid(s, req)
  }

  /** The request satisfies every rule of team registration. */
  ghost predicate Admissible(leaders: seq<Leader>, s: Store, req: Request) {
    && ChecksBeforeCap(leaders, s, req)
    && WithinCapacity(s, req)
    && ConflictFree(s, req, SlotOf(req.event).value)
  }

  /** The plan writes entry `i` as the rules say: a create for a new student, else an update. */
  ghost predicate PlannedAs(s: Store, req: Request, leader: Leader, plan: Plan, i: int)
    requires 0 <= i < |req.participants| && |plan.actions| == |req.participants|
  {
    var p := req.participants[i];
    var reg := ToUpper(p.registerNumber);
    if HasKey(s, req.leaderId, reg) then
      && plan.actions[i].Update?
      && plan.actions[i].registerNumber == reg
      && (UniqueKeys(s) ==>
            forall k :: 0 <= k < |s| && s[k].leaderId == req.leaderId && s[k].registerNumber == reg ==>
              plan.actions[i].prevEvent2 == s[k].event2 && plan.actions[i].prevSlot2 == s[k].slot2)
    else
      plan.actions[i] == Create(NewDocFor(req.leaderId, leader, req.event, plan.slot, p))
  }

  /** The plan carries the request's target and writes every entry as the rules say. */
  ghost predicate PlanFor(s: Store, req: Request, leader: Leader, plan: Plan) {
    && plan.leaderId == req.leaderId && plan.event == req.event
    && SlotOf(req.event) == Some(plan.slot)
    && |plan.actions| == |req.participants|
    && forall i :: 0 <= i < |req.participants| ==> PlannedAs(s, req, leader, plan, i)
  }

  /** The checks after the field checks: the cap, then conflicts, then the plan. */
  function VetCapacity(s: Store, req: Request, leader: Leader, slot: Slot): (r: Result<Plan, RegError>)
    ensures r.Failure? ==> r.error == CapacityExceeded || r.error.IsConflictError()
    ensures r.Success? ==> r.value.leaderId == req.leaderId && r.value.event == req.event && r.value.slot == slot
  {
    var L := req.leaderId;
    var ps := req.participants;
    var regs := RegNumbers(ps);
    var docs := ExistingDocs(s, L, regs);
    var known := ExistingRegs(docs);
    if CountFor(s, L) + |Seqs.Filter(regs, NotIn(known))| > MaxStudents then Failure(CapacityExceeded)
    else match FirstConflict(docs, slot)
      case Some(e) => Failure(e)
      case None =>
        Success(Plan(L, req.event, slot, seq(|ps|, i requires 0 <= i < |ps| =>
          ActionFor(L, leader, req.event, slot, docs, ps[i]))))
  }

  /** The cap counts the students the store does not hold yet; conflicts come after it. */
  lemma VetCapacityRules(s: Store, req: Request, leader: Leader, slot: Slot)
    requires SlotOf(req.event) == Some(slot)
    ensures var r := VetCapacity(s, req, leader, slot);
      && (r == Failure(CapacityExceeded) <==> !WithinCapacity(s, req))
      && (r.Failure? && r.error.IsConflictError() <==> WithinCapacity(s, req) && !ConflictFree(s, req, slot))
      && (r.Failure? && r.error.IsConflictError() ==> FirstConflictIs(s, req, slot, r.error))
      && (r.Success? ==> PlanFor(s, req, leader, r.value))
  {
    var L := req.leaderId;
    var ps := req.participants;
    var regs := RegNumbers(ps);
    var docs := ExistingDocs(s, L, regs);
    NewStudentCountIsNewCount(s, L, regs, regs);
    FirstConflictSpec(docs, slot);
    var r := VetCapacity(s, req, leader, slot);
    if r.Success? {
      PlanIsPlanned(s, req, leader, r.value, slot);
    }
  }

  /** Each entry's field checks, in batch order, then `VetCapacity`. */
  function VetFields(s: Store, req: Request, leader: Leader, slot: Slot): (r: Result<Plan, RegError>)
    ensures r.Failure? ==> r.error.IsFieldError() || r.error == CapacityExceeded || r.error.IsConflictError()
  {
    var ps := req.participants;
    var known := ExistingRegs(ExistingDocs(s, req.leaderId, RegNumbers(ps)));
    match FirstFieldError(ps, known)
    case Some(e) => Failure(e)
    case None => VetCapacity(s, req, leader, slot)
  }

  /** A field error is reported exactly when some entry fails, and it is the first failure's. */
  lemma VetFieldsRules(s: Store, req: Request, leader: Leader, slot: Slot)
    ensures var r := VetFields(s, req, leader, slot);
      && (r.Failure? && r.error.IsFieldError() <==> !FieldsValid(s, req))
      && (r.Failure? && r.error.IsFieldError() ==> FirstFieldFailure(s, req, r.error))
      && (FieldsValid(s, req) ==> r == VetCapacity(s, req, leader, slot))
  {
    VetFieldsErrors(s, req, leader, slot);
    FieldsValidIsScan(s, req);
  }

  /** The field-error half of `VetFieldsRules`. */
  lemma VetFieldsErrors(s: Store, req: Request, leader: Leader, slot: Slot)
    ensures var r := VetFields(s, req, leader, slot);
      && (r.Failure? && r.error.IsFieldError() <==> !FieldsValid(s, req))
      && (r.Failure? && r.error.IsFieldError() ==> FirstFieldFailure(s, req, r.error))
  {
    FieldsValidIsScan(s, req);
    ScanFailureIsFirst(s, req);
  }

  /** The error the route's scan reports is that of the first entry failing against the store. */
  lemma ScanFailureIsFirst(s: Store, req: Request)
    ensures var e := FirstFieldError(req.participants, ExistingRegs(ExistingDocs(s, req.leaderId, RegNumbers(req.participants))));
      e.Some? ==> FirstFieldFailure(s, req, e.value)
  {
    var ps := req.participants;
    var known := ExistingRegs(ExistingDocs(s, req.leaderId, RegNumbers(ps)));
    ScanSeesStore(s, req);
    FirstFieldErrorSpec(ps, known);
    if FirstFieldError(ps, known).Some? {
      var e := FirstFieldError(ps, known).value;
      var i :| 0 <= i < |ps| && FieldError(ps[i], ToUpper(ps[i].registerNumber) in known) == Some(e)
        && forall j :: 0 <= j < i ==> FieldError(ps[j], ToUpper(ps[j].registerNumber) in known).None?;
      assert FieldErrorAt(s, req, i) == Some(e);
    }
  }

  /** The route's scan passes exactly when every entry passes against the store. */
  lemma FieldsValidIsScan(s: Store, req: Request)
    ensures FieldsValid(s, req) <==>
      FirstFieldError(req.participants, ExistingRegs(ExistingDocs(s, req.leaderId, RegNumbers(req.participants)))).None?
  {
    var ps := req.participants;
    var known := ExistingRegs(ExistingDocs(s, req.leaderId, RegNumbers(ps)));
    ScanSeesStore(s, req);
    FirstFieldErrorSpec(ps, known);
  }

  /** The route's per-entry check, with `isExisting` from its query, is the check against the store. */
  lemma ScanSeesStore(s: Store, req: Request)
    ensures var known := ExistingRegs(ExistingDocs(s, req.leaderId, RegNumbers(req.participants)));
      forall i :: 0 <= i < |req.participants| ==>
        FieldErrorAt(s, req, i) == FieldError(req.participants[i], ToUpper(req.participants[i].registerNumber) in known)
  {
    KnownIsStored(s, req);
  }

  /** The checks on the batch itself: duplicates, then `VetFields`. */
  function VetTeam(s: Store, req: Request, leader: Leader, slot: Slot): (r: Result<Plan, RegError>)
    ensures r.Failure? ==> r.error.IsTeamError()
  {
    if |DupInTeam(RegNumbers(req.participants))| > 0 then Failure(DuplicateInBatch)
    else VetFields(s, req, leader, slot)
  }

  /** A duplicate is reported exactly when two entries coincide once upper-cased. */
  lemma VetTeamRules(s: Store, req: Request, leader: Leader, slot: Slot)
    ensures var r := VetTeam(s, req, leader, slot);
      && (r == Failure(DuplicateInBatch) <==> !Distinct(RegNumbers(req.participants)))
      && (Distinct(RegNumbers(req.participants)) ==> r == VetFields(s, req, leader, slot))
  {
    DupInTeamDetectsDuplicates(RegNumbers(req.participants));
  }

  /** The leader and the slot the gate hands on to the team checks. */
  datatype Target = Target(leader: Leader, slot: Slot)

  /** The checks before the team is looked at: input, leader, profile, event, event not yet taken. */
  function Gate(leaders: seq<Leader>, s: Store, req: Request): (r: Result<Target, RegError>)
    ensures r.Failure? ==> r.error.IsGateError()
    ensures r.Success? <==> EventOpen(leaders, s, req)
    ensures r.Success? ==> r.value == Target(FindLeader(leaders, req.leaderId).value, SlotOf(req.event).value)
  {
    if req.leaderId == "" || req.event == "" || |req.participants| == 0 then Failure(MissingInput)
    else match FindLeader(leaders, req.leaderId)
    case None => Failure(LeaderNotFound)
    case Some(leader) =>
      if leader.college == "" || leader.department == "" then Failure(IncompleteProfile)
      else match SlotOf(req.event)
      case None => Failure(InvalidEvent)
      case Some(slot) =>
        if FindReferencing(s, req.leaderId, req.event).Some? then Failure(EventAlreadyTaken)
        else Success(Target(leader, slot))
  }

  /** The leader is checked before the event: missing input, unknown leader, incomplete profile. */
  lemma GateLeaderErrors(leaders: seq<Leader>, s: Store, req: Request)
    ensures Gate(leaders, s, req) == Failure(MissingInput) <==> !InputPresent(req)
    ensures Gate(leaders, s, req) == Failure(LeaderNotFound) <==>
      InputPresent(req) && forall i :: 0 <= i < |leaders| ==> leaders[i].userid != req.leaderId
    ensures Gate(leaders, s, req) == Failure(IncompleteProfile) <==>
      InputPresent(req) && FindLeader(leaders, req.leaderId).Some? && !LeaderReady(leaders, req)
  {
  }

  /** Then the event: outside the table, or already taken by one of the leader's records. */
  lemma GateEventErrors(leaders: seq<Leader>, s: Store, req: Request)
    ensures Gate(leaders, s, req) == Failure(InvalidEvent) <==>
      LeaderReady(leaders, req) && req.event !in EventNames
    ensures Gate(leaders, s, req) == Failure(EventAlreadyTaken) <==>
      LeaderReady(leaders, req) && req.event in EventNames && EventTaken(s, req.leaderId, req.event)
  {
    SlotOfAcceptsOnlyEvents(req.event);
  }

  /** `/registerteam` up to its first write: the gate, then the team checks. */
  function Decide(leaders: seq<Leader>, s: Store, req: Request): (r: Result<Plan, RegError>)
    ensures !EventOpen(leaders, s, req) ==> r.Failure? && Gate(leaders, s, req) == Failure(r.error)
    ensures EventOpen(leaders, s, req) ==>
      r == VetTeam(s, req, FindLeader(leaders, req.leaderId).value, SlotOf(req.event).value)
  {
    match Gate(leaders, s, req)
    case Failure(e) => Failure(e)
    case Success(t) => VetTeam(s, req, t.leader, t.slot)
  }

  /** A gate error is reported exactly when the gate refuses, and it is the gate's own error. */
  lemma DecideGateErrors(leaders: seq<Leader>, s: Store, req: Request)
    ensures Decide(leaders, s, req).Failure? && Decide(leaders, s, req).error.IsGateError() <==>
      !EventOpen(leaders, s, req)
  {
    if EventOpen(leaders, s, req) {
      DecidePastGate(leaders, s, req);
    }
  }

  /** Past the gate, every refusal is a team check's. */
  lemma DecidePastGate(leaders: seq<Leader>, s: Store, req: Request)
    requires EventOpen(leaders, s, req)
    ensures Decide(leaders, s, req).Failure? ==> Decide(leaders, s, req).error.IsTeamError()
  {
    var r := VetTeam(s, req, FindLeader(leaders, req.leaderId).value, SlotOf(req.event).value);
    assert Decide(leaders, s, req) == r;
  }

  /** Team checks fail in the route's order: duplicates, then fields, then the cap, then conflicts. */
  lemma DecideTeamErrors(leaders: seq<Leader>, s: Store, req: Request)
    requires EventOpen(leaders, s, req)
    ensures var r := Decide(leaders, s, req);
      && (r == Failure(DuplicateInBatch) <==> !Distinct(RegNumbers(req.participants)))
      && (r.Failure? && r.error.IsFieldError() <==> Distinct(RegNumbers(req.participants)) && !FieldsValid(s, req))
      && (r.Failure? && r.error.IsFieldError() ==> FirstFieldFailure(s, req, r.error))
      && (r == Failure(CapacityExceeded) <==> ChecksBeforeCap(leaders, s, req) && !WithinCapacity(s, req))
      && (r.Failure? && r.error.IsConflictError() <==>
            ChecksBeforeCap(leaders, s, req) && WithinCapacity(s, req) && !ConflictFree(s, req, SlotOf(req.event).value))
      && (r.Failure? && r.error.IsConflictError() ==> FirstConflictIs(s, req, SlotOf(req.event).value, r.error))
  {
    DecideEarlyTeamErrors(leaders, s, req);
    DecideLateTeamErrors(leaders, s, req);
  }

  /** The duplicate and field checks of `DecideTeamErrors`. */
  lemma DecideEarlyTeamErrors(leaders: seq<Leader>, s: Store, req: Request)
    requires EventOpen(leaders, s, req)
    ensures var r := Decide(leaders, s, req);
      && (r == Failure(DuplicateInBatch) <==> !Distinct(RegNumbers(req.participants)))
      && (r.Failure? && r.error.IsFieldError() <==> Distinct(RegNumbers(req.participants)) && !FieldsValid(s, req))
      && (r.Failure? && r.error.IsFieldError() ==> FirstFieldFailure(s, req, r.error))
  {
    var leader := FindLeader(leaders, req.leaderId).value;
    var slot := SlotOf(req.event).value;
    VetTeamRules(s, req, leader, slot);
    VetFieldsRules(s, req, leader, slot);
  }

  /** The capacity and conflict checks of `DecideTeamErrors`. */
  lemma DecideLateTeamErrors(leaders: seq<Leader>, s: Store, req: Request)
    requires EventOpen(leaders, s, req)
    ensures var r := Decide(leaders, s, req);
      && (r == Failure(CapacityExceeded) <==> ChecksBeforeCap(leaders, s, req) && !WithinCapacity(s, req))
      && (r.Failure? && r.error.IsConflictError() <==>
            ChecksBeforeCap(leaders, s, req) && WithinCapacity(s, req) && !ConflictFree(s, req, SlotOf(req.event).value))
      && (r.Failure? && r.error.IsConflictError() ==> FirstConflictIs(s, req, SlotOf(req.event).value, r.error))
  {
    DecideCapacityError(leaders, s, req);
    DecideConflictErrors(leaders, s, req);
  }

  /** The cap check of `DecideTeamErrors`. */
  lemma DecideCapacityError(leaders: seq<Leader>, s: Store, req: Request)
    requires EventOpen(leaders, s, req)
    ensures Decide(leaders, s, req) == Failure(CapacityExceeded) <==>
      ChecksBeforeCap(leaders, s, req) && !WithinCapacity(s, req)
  {
    DecideReachesCapacity(leaders, s, req);
    VetCapacityRules(s, req, FindLeader(leaders, req.leaderId).value, SlotOf(req.event).value);
  }

  /** The conflict checks of `DecideTeamErrors`. */
  lemma DecideConflictErrors(leaders: seq<Leader>, s: Store, req: Request)
    requires EventOpen(leaders, s, req)
    ensures var r := Decide(leaders, s, req);
      && (r.Failure? && r.error.IsConflictError() <==>
            ChecksBeforeCap(leaders, s, req) && WithinCapacity(s, req) && !ConflictFree(s, req, SlotOf(req.event).value))
      && (r.Failure? && r.error.IsConflictError() ==> FirstConflictIs(s, req, SlotOf(req.event).value, r.error))
  {
    DecideReachesCapacity(leaders, s, req);
    VetCapacityRules(s, req, FindLeader(leaders, req.leaderId).value, SlotOf(req.event).value);
  }

  /** Once the gate, the duplicate check and the field checks pass, the decision is the capacity stage's. */
  lemma DecideReachesCapacity(leaders: seq<Leader>, s: Store, req: Request)
    requires EventOpen(leaders, s, req)
    ensures ChecksBeforeCap(leaders, s, req) ==>
      Decide(leaders, s, req) == VetCapacity(s, req, FindLeader(leaders, req.leaderId).value, SlotOf(req.event).value)
    ensures !ChecksBeforeCap(leaders, s, req) ==>
      Decide(leaders, s, req).Failure? &&
      (Decide(leaders, s, req).error == DuplicateInBatch || Decide(leaders, s, req).error.IsFieldError())
  {
    var leader := FindLeader(leaders, req.leaderId).value;
    var slot := SlotOf(req.event).value;
    VetTeamRules(s, req, leader, slot);
    VetFieldsRules(s, req, leader, slot);
  }

  /** A request is accepted exactly when it satisfies every rule, and then with the planned writes. */
  lemma DecideAcceptsAdmissible(leaders: seq<Leader>, s: Store, req: Request)
    ensures Decide(leaders, s, req).Success? <==> Admissible(leaders, s, req)
    ensures Decide(leaders, s, req).Success? ==>
      LeaderReady(leaders, req) && PlanFor(s, req, FindLeader(leaders, req.leaderId).value, Decide(leaders, s, req).value)
    ensures Decide(leaders, s, req) != Failure(BatchWriteFailed)
  {
    if EventOpen(leaders, s, req) {
      var leader := FindLeader(leaders, req.leaderId).value;
      var slot := SlotOf(req.event).value;
      VetTeamRules(s, req, leader, slot);
      VetFieldsRules(s, req, leader, slot);
      VetCapacityRules(s, req, leader, slot);
    }
  }

  /** `findOne({ leaderId, $or: [{ event1 }, { event2 }] })`. */
  function FindReferencing(s: Store, leaderId: string, event: string): (r: Option<Record>)
    ensures r.Some? <==> EventTaken(s, leaderId, event)
    decreases |s|
  {
    if |s| == 0 then None
    else if s[0].leaderId == leaderId && s[0].References(event) then Some(s[0])
    else
      var r := FindReferencing(s[1..], leaderId, event);
      assert EventTaken(s, leaderId, event) ==>
        (s[0].leaderId == leaderId && s[0].References(event)) || EventTaken(s[1..], leaderId, event) by {
        if EventTaken(s, leaderId, event) {
          var i :| 0 <= i < |s| && s[i].leaderId == leaderId && s[i].References(event);
          if i > 0 { assert s[1..][i - 1] == s[i]; }
        }
      }
      assert EventTaken(s[1..], leaderId, event) ==> EventTaken(s, leaderId, event) by {
        if EventTaken(s[1..], leaderId, event) {
          var i :| 0 <= i < |s[1..]| && s[1..][i].leaderId == leaderId && s[1..][i].References(event);
          assert s[i + 1] == s[1..][i];
        }
      }
      r
  }

  /** The route's `isExisting` agrees with the store for every entry of the batch. */
  lemma KnownIsStored(s: Store, req: Request)
    ensures var regs := RegNumbers(req.participants);
      forall i :: 0 <= i < |req.participants| ==>
        (ToUpper(req.participants[i].registerNumber) in ExistingRegs(ExistingDocs(s, req.leaderId, regs)) <==>
         HasKey(s, req.leaderId, ToUpper(req.participants[i].registerNumber)))
  {
    var regs := RegNumbers(req.participants);
    forall i | 0 <= i < |req.participants|
      ensures ToUpper(req.participants[i].registerNumber) in ExistingRegs(ExistingDocs(s, req.leaderId, regs)) <==>
        HasKey(s, req.leaderId, ToUpper(req.participants[i].registerNumber))
    {
      assert regs[i] == ToUpper(req.participants[i].registerNumber);
      ExistingRegsMatchStore(s, req.leaderId, regs, regs[i]);
    }
  }

  /** The plan the route builds writes each entry as the rules say. */
  lemma PlanIsPlanned(s: Store, req: Request, leader: Leader, plan: Plan, slot: Slot)
    requires plan.leaderId == req.leaderId && plan.event == req.event && plan.slot == slot
    requires var docs := ExistingDocs(s, req.leaderId, RegNumbers(req.participants));
      plan.actions == seq(|req.participants|, i requires 0 <= i < |req.participants| =>
        ActionFor(req.leaderId, leader, req.event, slot, docs, req.participants[i]))
    ensures forall i :: 0 <= i < |req.participants| ==> PlannedAs(s, req, leader, plan, i)
  {
    var regs := RegNumbers(req.participants);
    var docs := ExistingDocs(s, req.leaderId, regs);
    KnownIsStored(s, req);
    forall i | 0 <= i < |req.participants| ensures PlannedAs(s, req, leader, plan, i) {
      var p := req.participants[i];
      var reg := ToUpper(p.registerNumber);
      match FindByReg(docs, reg)
      case Some(x) =>
        assert x in s && x.leaderId == req.leaderId by {
          assert InBatch(req.leaderId, regs)(x);
        }
        forall k | 0 <= k < |s| && s[k].leaderId == req.leaderId && s[k].registerNumber == reg && UniqueKeys(s)
          ensures x == s[k]
        {
          var m :| 0 <= m < |s| && s[m] == x;
          assert m == k;
        }
      case None =>
    }
  }
}

/**
 * `/registerteam` end to end: the decision, the write loop, and the rollback on a failed
 * write, with what each outcome leaves in the store.
 */
module Team {
  import opened Wrappers
  import opened JsStrings
  import opened Catalog
  import opened Records
  import opened Engine
  import opened Batch
  import Seqs

  /** A successful response carries the `created` and `updated` counts. */
  datatype Response = Registered(created: nat, updated: nat) | Rejected(error: RegError)

  datatype Reply = Reply(store: Store, response: Response)

  // ---------------------------------------------------------------------------
  // The route's plan is fit for the store it was computed against

  /** Entry `i` of the plan writes the `i`-th upper-cased register number of the batch. */
  lemma PlannedStudent(s: Store, req: Request, leader: Leader, plan: Plan, i: nat)
    requires PlanFor(s, req, leader, plan) && i < |req.participants|
    ensures RegOf(plan.actions[i]) == RegNumbers(req.participants)[i]
    ensures plan.actions[i].Update? <==> HasKey(s, req.leaderId, RegNumbers(req.participants)[i])
  {
    assert PlannedAs(s, req, leader, plan, i);
  }

  /** A plan the rules produce, for a batch without duplicates, is fit for the store. */
  lemma PlanForFits(s: Store, req: Request, leader: Leader, plan: Plan)
    requires PlanFor(s, req, leader, plan) && Distinct(RegNumbers(req.participants)) && UniqueKeys(s)
    ensures PlanFits(s, plan)
  {
    var acts := plan.actions;
    var regs := RegNumbers(req.participants);
    forall i, j | 0 <= i < j < |acts| ensures RegOf(acts[i]) != RegOf(acts[j]) {
      PlannedStudent(s, req, leader, plan, i);
      PlannedStudent(s, req, leader, plan, j);
    }
    forall i | 0 <= i < |acts| && acts[i].Update?
      ensures HasKey(s, plan.leaderId, acts[i].registerNumber)
      ensures SnapFits(s, plan.leaderId, Snapshot(acts[i].registerNumber, acts[i].prevEvent2, acts[i].prevSlot2))
    {
      PlannedStudent(s, req, leader, plan, i);
      assert PlannedAs(s, req, leader, plan, i);
    }
    forall i | 0 <= i < |acts| && acts[i].Create?
      ensures !HasKey(s, plan.leaderId, acts[i].doc.registerNumber)
      ensures acts[i].doc.leaderId == plan.leaderId
      ensures acts[i].doc.event1 == plan.event && acts[i].doc.slot1 == plan.slot
    {
      PlannedStudent(s, req, leader, plan, i);
      assert PlannedAs(s, req, leader, plan, i);
    }
  }

  // ---------------------------------------------------------------------------
  // What a committed registration leaves in the store

  /** The documents created for the first `n` entries: one per entry with no record yet, in order. */
  ghost function NewDocs(s: Store, req: Request, leader: Leader, slot: Slot, n: nat): seq<NewDoc>
    requires n <= |req.participants|
    decreases n
  {
    if n == 0 then []
    else
      var p := req.participants[n - 1];
      NewDocs(s, req, leader, slot, n - 1)
        + (if HasKey(s, req.leaderId, ToUpper(p.registerNumber)) then []
           else [NewDocFor(req.leaderId, leader, req.event, slot, p)])
  }

  /**
   * A registration took effect: each of the leader's records whose student is in the batch
   * gains the event as its second event, every other record is left as it was, and a record
   * is appended for each new student, in submission order.
   */
  ghost predicate RegisteredAs(s: Store, req: Request, leader: Leader, slot: Slot, t: Store) {
    var docs := NewDocs(s, req, leader, slot, |req.participants|);
    && |t| == |s| + |docs|
    && (forall k :: 0 <= k < |s| ==>
          t[k] == Mark(s[k], req.leaderId, RegNumbers(req.participants), req.event, slot))
    && (forall m :: 0 <= m < |docs| ==> Cast(docs[m]).Some? && t[|s| + m] == Cast(docs[m]).value)
  }

  /** The plan's creates are exactly the new students' documents. */
  lemma {:induction false} PlanCreatesNewDocs(s: Store, req: Request, leader: Leader, plan: Plan, n: nat)
    requires PlanFor(s, req, leader, plan) && n <= |req.participants|
    ensures Docs(plan.actions[..n]) == NewDocs(s, req, leader, plan.slot, n)
    decreases n
  {
    if n > 0 {
      PlanCreatesNewDocs(s, req, leader, plan, n - 1);
      var acts := plan.actions[..n];
      assert acts[..n - 1] == plan.actions[..n - 1];
      assert PlannedAs(s, req, leader, plan, n - 1);
      assert Docs(acts) == Docs(acts[..n - 1]) + (if acts[n - 1].Create? then [acts[n - 1].doc] else []);
    } else {
      assert Docs(plan.actions[..0]) == [];
    }
  }

  /** There are as many new documents as new students. */
  lemma {:induction false} NewDocsCount(s: Store, req: Request, leader: Leader, slot: Slot, n: nat)
    requires n <= |req.participants|
    ensures |NewDocs(s, req, leader, slot, n)| == NewCount(s, req.leaderId, RegNumbers(req.participants)[..n])
    decreases n
  {
    var regs := RegNumbers(req.participants);
    if n > 0 {
      NewDocsCount(s, req, leader, slot, n - 1);
      assert regs[..n][..n - 1] == regs[..n - 1];
      assert regs[..n][n - 1] == ToUpper(req.participants[n - 1].registerNumber);
    } else {
      assert regs[..0] == [];
    }
  }

  /** Each new document is the one built for an entry with no record yet. */
  lemma {:induction false} NewDocsOrigin(s: Store, req: Request, leader: Leader, slot: Slot, n: nat)
    requires n <= |req.participants|
    ensures forall m :: 0 <= m < |NewDocs(s, req, leader, slot, n)| ==> exists i :: (0 <= i < n
      && !HasKey(s, req.leaderId, ToUpper(req.participants[i].registerNumber))
      && NewDocs(s, req, leader, slot, n)[m] == NewDocFor(req.leaderId, leader, req.event, slot, req.participants[i]))
    decreases n
  {
    if n > 0 {
      NewDocsOrigin(s, req, leader, slot, n - 1);
      var prev := NewDocs(s, req, leader, slot, n - 1);
      var docs := NewDocs(s, req, leader, slot, n);
      forall m | 0 <= m < |docs| ensures exists i :: (0 <= i < n
        && !HasKey(s, req.leaderId, ToUpper(req.participants[i].registerNumber))
        && docs[m] == NewDocFor(req.leaderId, leader, req.event, slot, req.participants[i]))
      {
        if m < |prev| {
          var i :| 0 <= i < n - 1
            && !HasKey(s, req.leaderId, ToUpper(req.participants[i].registerNumber))
            && prev[m] == NewDocFor(req.leaderId, leader, req.event, slot, req.participants[i]);
          assert docs[m] == prev[m];
        } else {
          var p := req.participants[n - 1];
          assert !HasKey(s, req.leaderId, ToUpper(p.registerNumber));
          assert docs[m] == NewDocFor(req.leaderId, leader, req.event, slot, p);
        }
      }
    } else {
      assert NewDocs(s, req, leader, slot, n) == [];
    }
  }

  /** Among the leader's stored students, the snapshotted ones are exactly the batch's. */
  lemma SnapshotsAreBatch(s: Store, req: Request, leader: Leader, plan: Plan, x: Record)
    requires PlanFor(s, req, leader, plan) && x in s && x.leaderId == req.leaderId
    ensures x.registerNumber in SnapRegs(Snaps(plan.actions)) <==> x.registerNumber in RegNumbers(req.participants)
  {
    var acts := plan.actions;
    var regs := RegNumbers(req.participants);
    if x.registerNumber in SnapRegs(Snaps(acts)) {
      SnapsFromUpdates(acts);
      var j :| 0 <= j < |Snaps(acts)| && SnapRegs(Snaps(acts))[j] == x.registerNumber;
      var i :| 0 <= i < |acts| && acts[i].Update?
        && Snaps(acts)[j] == Snapshot(acts[i].registerNumber, acts[i].prevEvent2, acts[i].prevSlot2);
      PlannedStudent(s, req, leader, plan, i);
    }
    if x.registerNumber in regs {
      var i :| 0 <= i < |regs| && regs[i] == x.registerNumber;
      var k :| 0 <= k < |s| && s[k] == x;
      assert HasKey(s, req.leaderId, regs[i]);
      PlannedStudent(s, req, leader, plan, i);
      UpdatesLogged(acts);
    }
  }

  /** A fully applied plan for the request has the registration's effect. */
  lemma AppliedIsRegistered(s: Store, req: Request, leader: Leader, plan: Plan, t: Store, log: WriteLog)
    requires PlanFor(s, req, leader, plan) && Applied(s, plan, |plan.actions|, t, log)
    ensures RegisteredAs(s, req, leader, plan.slot, t)
    ensures |log.created| == NewCount(s, req.leaderId, RegNumbers(req.participants))
    ensures |log.created| + |log.snapshots| == |req.participants|
  {
    var acts := plan.actions;
    var n := |req.participants|;
    assert acts[..|acts|] == acts;
    PlanCreatesNewDocs(s, req, leader, plan, n);
    NewDocsCount(s, req, leader, plan.slot, n);
    assert RegNumbers(req.participants)[..n] == RegNumbers(req.participants);
    CountsAddUp(acts);
    forall k | 0 <= k < |s|
      ensures t[k] == Mark(s[k], req.leaderId, RegNumbers(req.participants), req.event, plan.slot)
    {
      if s[k].leaderId == req.leaderId {
        SnapshotsAreBatch(s, req, leader, plan, s[k]);
      }
    }
  }

  // ---------------------------------------------------------------------------
  // The route

  /**
   * `/registerteam`: the decision, then the writes in order; when one throws, the records
   * created so far are deleted and the snapshotted second events put back. The outcomes are
   * stated by `RegisterRejectsAsDecided`, `RegisterWrites` and `RegisterKeepsValid`.
   */
  function RegisterTeam(leaders: seq<Leader>, s: Store, req: Request, failAt: Option<nat>): (r: Reply)
    ensures r.response.Rejected? && r.response.error != BatchWriteFailed ==> r.store == s
  {
    match Decide(leaders, s, req)
    case Failure(e) => Reply(s, Rejected(e))
    case Success(plan) =>
      match Apply(s, plan, failAt)
      case Committed(t, log) => Reply(t, Registered(|log.created|, |log.snapshots|))
      case Aborted(t, log) => Reply(Rollback(t, plan.leaderId, log), Rejected(BatchWriteFailed))
  }

  /** No write throws: `failAt` lies past the batch and every new student's document validates. */
  ghost predicate WritesLand(s: Store, req: Request, leader: Leader, slot: Slot, failAt: Option<nat>) {
    var docs := NewDocs(s, req, leader, slot, |req.participants|);
    && (failAt.Some? ==> failAt.value >= |req.participants|)
    && (forall m :: 0 <= m < |docs| ==> Cast(docs[m]).Some?)
  }

  /** Every write of the plan goes through exactly when the writes land. */
  lemma PlanWritesLand(s: Store, req: Request, leader: Leader, plan: Plan, failAt: Option<nat>)
    requires PlanFor(s, req, leader, plan)
    ensures (forall j :: 0 <= j < |plan.actions| ==> WriteSucceeds(plan, failAt, j)) <==>
      WritesLand(s, req, leader, plan.slot, failAt)
  {
    var acts := plan.actions;
    var n := |req.participants|;
    assert acts[..n] == acts;
    PlanCreatesNewDocs(s, req, leader, plan, n);
    var docs := Docs(acts);
    if failAt.Some? && failAt.value < n {
      assert !WriteSucceeds(plan, failAt, failAt.value);
    }
    if forall j :: 0 <= j < |acts| ==> WriteSucceeds(plan, failAt, j) {
      DocsFromCreates(acts);
      forall m | 0 <= m < |docs| ensures Cast(docs[m]).Some? {
        var i :| 0 <= i < |acts| && acts[i] == Create(docs[m]);
        assert WriteSucceeds(plan, failAt, i);
      }
    }
    if WritesLand(s, req, leader, plan.slot, failAt) {
      CreatesLogged(acts);
      forall j | 0 <= j < |acts| ensures WriteSucceeds(plan, failAt, j) {
        if acts[j].Create? {
          var m :| 0 <= m < |docs| && docs[m] == acts[j].doc;
        }
      }
    }
  }

  /** Under the rules, a new student's document fails validation only on the leader's department. */
  lemma NewDocsValidate(leaders: seq<Leader>, s: Store, req: Request)
    requires Admissible(leaders, s, req)
    ensures var leader := FindLeader(leaders, req.leaderId).value;
      var docs := NewDocs(s, req, leader, SlotOf(req.event).value, |req.participants|);
      forall m :: 0 <= m < |docs| ==> (Cast(docs[m]).Some? <==> DepartmentOf(leader.department).Some?)
  {
    var leader := FindLeader(leaders, req.leaderId).value;
    var slot := SlotOf(req.event).value;
    var docs := NewDocs(s, req, leader, slot, |req.participants|);
    NewDocsOrigin(s, req, leader, slot, |req.participants|);
    forall m | 0 <= m < |docs| ensures Cast(docs[m]).Some? <==> DepartmentOf(leader.department).Some? {
      var i :| 0 <= i < |req.participants|
        && !HasKey(s, req.leaderId, ToUpper(req.participants[i].registerNumber))
        && docs[m] == NewDocFor(req.leaderId, leader, req.event, slot, req.participants[i]);
      var p := req.participants[i];
      assert FieldErrorAt(s, req, i).None?;
      FieldErrorAccepts(p, false);
      ToUpperEmpty(p.registerNumber);
      assert |CleanMobile(p.mobile)| == 10;
    }
  }

  /** A rejection by the rules is the decision's error, and the store is left as it was. */
  lemma RegisterRejectsAsDecided(leaders: seq<Leader>, s: Store, req: Request, failAt: Option<nat>)
    ensures var r := RegisterTeam(leaders, s, req, failAt);
      && (r.response.Rejected? && r.response.error != BatchWriteFailed <==> !Admissible(leaders, s, req))
      && (!Admissible(leaders, s, req) ==> r == Reply(s, Rejected(Decide(leaders, s, req).error)))
  {
    DecideAcceptsAdmissible(leaders, s, req);
  }

  /**
   * An admissible request is registered exactly when its writes land, with the effect and
   * the counts the route reports; otherwise the rollback returns the store it started from.
   */
  lemma RegisterWrites(leaders: seq<Leader>, s: Store, req: Request, failAt: Option<nat>)
    requires UniqueKeys(s) && Admissible(leaders, s, req)
    ensures var r := RegisterTeam(leaders, s, req, failAt);
      var leader := FindLeader(leaders, req.leaderId).value;
      var slot := SlotOf(req.event).value;
      && (r.response.Registered? <==> WritesLand(s, req, leader, slot, failAt))
      && (r.response.Rejected? ==> r == Reply(s, Rejected(BatchWriteFailed)))
      && (r.response.Registered? ==>
            && RegisteredAs(s, req, leader, slot, r.store)
            && r.response.created == NewCount(s, req.leaderId, RegNumbers(req.participants))
            && r.response.created + r.response.updated == |req.participants|)
  {
    var leader := FindLeader(leaders, req.leaderId).value;
    DecideAcceptsAdmissible(leaders, s, req);
    var plan := Decide(leaders, s, req).value;
    PlanForFits(s, req, leader, plan);
    ApplySound(s, plan, failAt);
    PlanWritesLand(s, req, leader, plan, failAt);
    var o := Apply(s, plan, failAt);
    if o.Committed? {
      AppliedIsRegistered(s, req, leader, plan, o.store, o.log);
    }
  }

  /** With no failing write and a department of the enum, an admissible request is registered. */
  lemma RegisterSucceeds(leaders: seq<Leader>, s: Store, req: Request)
    requires UniqueKeys(s) && Admissible(leaders, s, req)
    requires DepartmentOf(FindLeader(leaders, req.leaderId).value.department).Some?
    ensures RegisterTeam(leaders, s, req, None).response.Registered?
  {
    var leader := FindLeader(leaders, req.leaderId).value;
    var slot := SlotOf(req.event).value;
    NewDocsValidate(leaders, s, req);
    assert WritesLand(s, req, leader, slot, None);
    RegisterWrites(leaders, s, req, None);
  }

  // ---------------------------------------------------------------------------
  // The new records

  /** Every new student's document is among the new documents. */
  lemma {:induction false} NewDocsComplete(s: Store, req: Request, leader: Leader, slot: Slot, n: nat)
    requires n <= |req.participants|
    ensures forall i :: 0 <= i < n && !HasKey(s, req.leaderId, ToUpper(req.participants[i].registerNumber)) ==>
      NewDocFor(req.leaderId, leader, req.event, slot, req.participants[i]) in NewDocs(s, req, leader, slot, n)
    decreases n
  {
    if n > 0 {
      NewDocsComplete(s, req, leader, slot, n - 1);
    }
  }

  /** The record a registration appends for its `m`-th new student. */
  lemma NewRecordAt(s: Store, req: Request, leader: Leader, slot: Slot, t: Store, m: nat)
    requires RegisteredAs(s, req, leader, slot, t) && m < |NewDocs(s, req, leader, slot, |req.participants|)|
    ensures var x := t[|s| + m];
      && x.leaderId == req.leaderId && x.event1 == req.event && x.slot1 == slot
      && x.event2 == None && x.slot2 == None
      && x.registerNumber == NewDocs(s, req, leader, slot, |req.participants|)[m].registerNumber
      && !HasKey(s, req.leaderId, x.registerNumber)
  {
    var docs := NewDocs(s, req, leader, slot, |req.participants|);
    NewDocsOrigin(s, req, leader, slot, |req.participants|);
    var i :| 0 <= i < |req.participants|
      && !HasKey(s, req.leaderId, ToUpper(req.participants[i].registerNumber))
      && docs[m] == NewDocFor(req.leaderId, leader, req.event, slot, req.participants[i]);
    assert Cast(docs[m]).Some? && t[|s| + m] == Cast(docs[m]).value;
  }

  /** Different new documents name different students when the batch has no duplicates. */
  lemma {:induction false} NewDocsDistinct(s: Store, req: Request, leader: Leader, slot: Slot, n: nat)
    requires n <= |req.participants| && Distinct(RegNumbers(req.participants))
    ensures forall m1, m2 :: 0 <= m1 < m2 < |NewDocs(s, req, leader, slot, n)| ==>
      NewDocs(s, req, leader, slot, n)[m1].registerNumber != NewDocs(s, req, leader, slot, n)[m2].registerNumber
    decreases n
  {
    if n > 0 {
      NewDocsDistinct(s, req, leader, slot, n - 1);
      NewDocsOrigin(s, req, leader, slot, n - 1);
      var prev := NewDocs(s, req, leader, slot, n - 1);
      var docs := NewDocs(s, req, leader, slot, n);
      var regs := RegNumbers(req.participants);
      forall m1, m2 | 0 <= m1 < m2 < |docs| ensures docs[m1].registerNumber != docs[m2].registerNumber {
        if m2 >= |prev| {
          var i :| 0 <= i < n - 1 && prev[m1] == NewDocFor(req.leaderId, leader, req.event, slot, req.participants[i]);
          assert docs[m1] == prev[m1];
          assert m2 == |prev| && docs[m2] == NewDocFor(req.leaderId, leader, req.event, slot, req.participants[n - 1]);
          assert docs[m2].registerNumber == regs[n - 1];
          var d := NewDocFor(req.leaderId, leader, req.event, slot, req.participants[i]);
          assert prev[m1] == d && d.registerNumber == regs[i];
          assert regs[i] != regs[n - 1];
        } else {
          assert docs[m1] == prev[m1] && docs[m2] == prev[m2];
        }
      }
    }
  }

  // ---------------------------------------------------------------------------
  // A registration keeps the store valid

  /** The unique index still holds after a registration of a batch without duplicates. */
  lemma RegisteredKeysUnique(s: Store, req: Request, leader: Leader, slot: Slot, t: Store)
    requires UniqueKeys(s) && Distinct(RegNumbers(req.participants)) && RegisteredAs(s, req, leader, slot, t)
    ensures UniqueKeys(t)
  {
    var docs := NewDocs(s, req, leader, slot, |req.participants|);
    NewDocsDistinct(s, req, leader, slot, |req.participants|);
    forall i, j | 0 <= i < j < |t| ensures t[i].leaderId != t[j].leaderId || t[i].registerNumber != t[j].registerNumber {
      if j >= |s| {
        var m := j - |s|;
        NewRecordAt(s, req, leader, slot, t, m);
        if i < |s| {
          assert t[i] == Mark(s[i], req.leaderId, RegNumbers(req.participants), req.event, slot);
        } else {
          NewRecordAt(s, req, leader, slot, t, i - |s|);
          assert docs[i - |s|].registerNumber != docs[m].registerNumber;
        }
      } else {
        assert t[i] == Mark(s[i], req.leaderId, RegNumbers(req.participants), req.event, slot);
        assert t[j] == Mark(s[j], req.leaderId, RegNumbers(req.participants), req.event, slot);
      }
    }
  }

  /** A record of the batch's stored students passed the conflict checks, so gaining the event keeps it well formed. */
  lemma MarkedWellFormed(s: Store, req: Request, slot: Slot, k: nat)
    requires k < |s| && WellFormed(s[k])
    requires SlotOf(req.event) == Some(slot) && ConflictFree(s, req, slot)
    ensures WellFormed(Mark(s[k], req.leaderId, RegNumbers(req.participants), req.event, slot))
  {
    var regs := RegNumbers(req.participants);
    var x := s[k];
    if x.leaderId == req.leaderId && x.registerNumber in regs {
      var existing := ExistingDocs(s, req.leaderId, regs);
      assert InBatch(req.leaderId, regs)(x);
      var q :| 0 <= q < |existing| && existing[q] == x;
      ConflictOfAccepts(x, slot);
      SlotOfTable(x.event1);
      SlotOfTable(req.event);
    }
  }

  /** Records that gain the event stay well formed, and the new records are. */
  lemma RegisteredWellFormed(s: Store, req: Request, leader: Leader, slot: Slot, t: Store)
    requires forall i :: 0 <= i < |s| ==> WellFormed(s[i])
    requires SlotOf(req.event) == Some(slot) && ConflictFree(s, req, slot)
    requires RegisteredAs(s, req, leader, slot, t)
    ensures forall i :: 0 <= i < |t| ==> WellFormed(t[i])
  {
    forall i | 0 <= i < |t| ensures WellFormed(t[i]) {
      if i < |s| {
        MarkedWellFormed(s, req, slot, i);
      } else {
        NewRecordWellFormed(s, req, leader, slot, t, i - |s|);
      }
    }
  }

  /** A record the registration creates holds the event in its slot and no second event. */
  lemma NewRecordWellFormed(s: Store, req: Request, leader: Leader, slot: Slot, t: Store, m: nat)
    requires SlotOf(req.event) == Some(slot)
    requires RegisteredAs(s, req, leader, slot, t) && |s| + m < |t|
    ensures WellFormed(t[|s| + m])
  {
    NewRecordAt(s, req, leader, slot, t, m);
    SlotOfTable(req.event);
  }

  /** How many records each leader has after a registration. */
  lemma RegisteredCount(s: Store, req: Request, leader: Leader, slot: Slot, t: Store, id: string)
    requires RegisteredAs(s, req, leader, slot, t)
    ensures CountFor(t, id) ==
      CountFor(s, id) + if id == req.leaderId then NewCount(s, req.leaderId, RegNumbers(req.participants)) else 0
  {
    var n := |req.participants|;
    NewDocsCount(s, req, leader, slot, n);
    assert RegNumbers(req.participants)[..n] == RegNumbers(req.participants);
    Seqs.FilterSplit(t, |s|, OfLeader(id));
    RegisteredKeepsOldCount(s, req, leader, slot, t, id);
    RegisteredAppendsForLeader(s, req, leader, slot, t, id);
  }

  /** The records that were stored keep their leaders. */
  lemma RegisteredKeepsOldCount(s: Store, req: Request, leader: Leader, slot: Slot, t: Store, id: string)
    requires RegisteredAs(s, req, leader, slot, t)
    ensures |Seqs.Filter(t[..|s|], OfLeader(id))| == CountFor(s, id)
  {
    var a := t[..|s|];
    forall k | 0 <= k < |a| ensures OfLeader(id)(a[k]) == OfLeader(id)(s[k]) {
      assert a[k] == t[k];
    }
    Seqs.FilterSameCount(a, OfLeader(id), s, OfLeader(id));
  }

  /** The appended records all belong to the registering leader. */
  lemma RegisteredAppendsForLeader(s: Store, req: Request, leader: Leader, slot: Slot, t: Store, id: string)
    requires RegisteredAs(s, req, leader, slot, t)
    ensures |Seqs.Filter(t[|s|..], OfLeader(id))| ==
      if id == req.leaderId then |NewDocs(s, req, leader, slot, |req.participants|)| else 0
  {
    var b := t[|s|..];
    forall m | 0 <= m < |b| ensures b[m].leaderId == req.leaderId {
      NewRecordAt(s, req, leader, slot, t, m);
      assert b[m] == t[|s| + m];
    }
    if id == req.leaderId {
      Seqs.FilterKeepsAll(b, OfLeader(id));
    } else {
      Seqs.FilterDropsAll(b, OfLeader(id));
    }
  }

  /** No leader goes over the cap: only the registering leader gains records, as many as the cap allows. */
  lemma RegisteredCapped(s: Store, req: Request, leader: Leader, slot: Slot, t: Store)
    requires forall i :: 0 <= i < |s| ==> CountFor(s, s[i].leaderId) <= MaxStudents
    requires WithinCapacity(s, req) && RegisteredAs(s, req, leader, slot, t)
    ensures forall i :: 0 <= i < |t| ==> CountFor(t, t[i].leaderId) <= MaxStudents
  {
    forall i | 0 <= i < |t| ensures CountFor(t, t[i].leaderId) <= MaxStudents {
      RegisteredLeader(s, req, leader, slot, t, i);
      RegisteredCount(s, req, leader, slot, t, t[i].leaderId);
    }
  }

  /** Each record after a registration belongs to the registering leader or sits where it sat. */
  lemma RegisteredLeader(s: Store, req: Request, leader: Leader, slot: Slot, t: Store, i: nat)
    requires RegisteredAs(s, req, leader, slot, t) && i < |t|
    ensures t[i].leaderId == req.leaderId || (i < |s| && t[i].leaderId == s[i].leaderId)
  {
    if i < |s| {
      assert t[i] == Mark(s[i], req.leaderId, RegNumbers(req.participants), req.event, slot);
    } else {
      NewRecordAt(s, req, leader, slot, t, i - |s|);
    }
  }

  /** A registration that passed the rules keeps the store valid. */
  lemma RegisteredKeepsValid(s: Store, req: Request, leader: Leader, slot: Slot, t: Store)
    requires Valid(s) && Distinct(RegNumbers(req.participants)) && WithinCapacity(s, req)
    requires SlotOf(req.event) == Some(slot) && ConflictFree(s, req, slot)
    requires RegisteredAs(s, req, leader, slot, t)
    ensures Valid(t)
  {
    RegisteredKeysUnique(s, req, leader, slot, t);
    RegisteredWellFormed(s, req, leader, slot, t);
    RegisteredCapped(s, req, leader, slot, t);
  }

  /** Whatever the outcome, `/registerteam` keeps the store valid. */
  lemma RegisterKeepsValid(leaders: seq<Leader>, s: Store, req: Request, failAt: Option<nat>)
    requires Valid(s)
    ensures Valid(RegisterTeam(leaders, s, req, failAt).store)
  {
    RegisterRejectsAsDecided(leaders, s, req, failAt);
    if Admissible(leaders, s, req) {
      RegisterWrites(leaders, s, req, failAt);
      var r := RegisterTeam(leaders, s, req, failAt);
      if r.response.Registered? {
        RegisteredKeepsValid(s, req, FindLeader(leaders, req.leaderId).value, SlotOf(req.event).value, r.store);
      }
    }
  }

  // ---------------------------------------------------------------------------
  // Registering twice

  /** After a registration the leader's team holds the event. */
  lemma RegisteredTakesEvent(s: Store, req: Request, leader: Leader, slot: Slot, t: Store)
    requires |req.participants| > 0 && RegisteredAs(s, req, leader, slot, t)
    ensures EventTaken(t, req.leaderId, req.event)
  {
    var regs := RegNumbers(req.participants);
    if HasKey(s, req.leaderId, regs[0]) {
      var k :| 0 <= k < |s| && s[k].leaderId == req.leaderId && s[k].registerNumber == regs[0];
      assert t[k].References(req.event);
    } else {
      FirstNewRecordTakesEvent(s, req, leader, slot, t);
    }
  }

  /** When the first entry is new, its created record names the event. */
  lemma FirstNewRecordTakesEvent(s: Store, req: Request, leader: Leader, slot: Slot, t: Store)
    requires |req.participants| > 0 && RegisteredAs(s, req, leader, slot, t)
    requires !HasKey(s, req.leaderId, RegNumbers(req.participants)[0])
    ensures EventTaken(t, req.leaderId, req.event)
  {
    var docs := NewDocs(s, req, leader, slot, |req.participants|);
    NewDocsComplete(s, req, leader, slot, |req.participants|);
    assert RegNumbers(req.participants)[0] == ToUpper(req.participants[0].registerNumber);
    assert NewDocFor(req.leaderId, leader, req.event, slot, req.participants[0]) in docs;
    NewRecordAt(s, req, leader, slot, t, 0);
    assert t[|s| + 0].References(req.event);
  }

  /** The same team cannot register for the same event twice: the second request is refused. */
  lemma RegisterTwiceRejected(leaders: seq<Leader>, s: Store, req: Request, failAt: Option<nat>, failAt': Option<nat>)
    requires UniqueKeys(s)
    ensures var t := RegisterTeam(leaders, s, req, failAt).store;
      RegisterTeam(leaders, s, req, failAt).response.Registered? ==>
      RegisterTeam(leaders, t, req, failAt') == Reply(t, Rejected(EventAlreadyTaken))
  {
    if !RegisterTeam(leaders, s, req, failAt).response.Registered? {
      return;
    }
    var t := RegisterTeam(leaders, s, req, failAt).store;
    RegisterRejectsAsDecided(leaders, s, req, failAt);
    RegisterWrites(leaders, s, req, failAt);
    RegisteredTakesEvent(s, req, FindLeader(leaders, req.leaderId).value, SlotOf(req.event).value, t);
    SlotOfTable(req.event);
    GateEventErrors(leaders, t, req);
  }
}

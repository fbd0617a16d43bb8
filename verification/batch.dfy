/**
 * The write phase of team registration: the plan's writes applied one at a time, the
 * log the route keeps while writing, and the compensating rollback it runs when a
 * write fails.
 */
module Batch {
  import opened Wrappers
  import opened Catalog
  import opened Records
  import opened Engine
  import Seqs

  /** `{ _id, prevEvent2, prevSlot2 }`: the second event an update is about to overwrite. */
  datatype Snapshot = Snapshot(registerNumber: string, prevEvent2: Option<string>, prevSlot2: Option<Slot>)

  /**
   * `createdIds` and `updatedSnap`. A record's id is its key, the register number under
   * the plan's leader.
   */
  datatype WriteLog = WriteLog(created: seq<string>, snapshots: seq<Snapshot>)

  /** The store after the writes, and whether every write went through. */
  datatype Outcome = Committed(store: Store, log: WriteLog) | Aborted(store: Store, log: WriteLog)

  /** The student an action writes. */
  function RegOf(a: Action): string {
    match a
    case Create(d) => d.registerNumber
    case Update(reg, _, _) => reg
  }

  /** The students of a plan, in order. */
  function Regs(acts: seq<Action>): (regs: seq<string>)
    ensures |regs| == |acts|
    ensures forall i :: 0 <= i < |acts| ==> regs[i] == RegOf(acts[i])
  {
    seq(|acts|, i requires 0 <= i < |acts| => RegOf(acts[i]))
  }

  /** The documents the actions create, in order. */
  function Docs(acts: seq<Action>): seq<NewDoc>
    decreases |acts|
  {
    if |acts| == 0 then []
    else
      var last := acts[|acts| - 1];
      Docs(acts[..|acts| - 1]) + (if last.Create? then [last.doc] else [])
  }

  /** The snapshots the actions take, in order. */
  function Snaps(acts: seq<Action>): seq<Snapshot>
    decreases |acts|
  {
    if |acts| == 0 then []
    else
      var last := acts[|acts| - 1];
      Snaps(acts[..|acts| - 1])
        + (if last.Update? then [Snapshot(last.registerNumber, last.prevEvent2, last.prevSlot2)] else [])
  }

  function DocRegs(docs: seq<NewDoc>): (regs: seq<string>)
    ensures |regs| == |docs|
    ensures forall k :: 0 <= k < |docs| ==> regs[k] == docs[k].registerNumber
  {
    seq(|docs|, k requires 0 <= k < |docs| => docs[k].registerNumber)
  }

  function SnapRegs(snaps: seq<Snapshot>): (regs: seq<string>)
    ensures |regs| == |snaps|
    ensures forall j :: 0 <= j < |snaps| ==> regs[j] == snaps[j].registerNumber
  {
    seq(|snaps|, j requires 0 <= j < |snaps| => snaps[j].registerNumber)
  }

  /** A record once the plan's updates have run: a batch member gains the event as its second. */
  function Mark(x: Record, leaderId: string, updated: seq<string>, event: string, slot: Slot): Record {
    if x.leaderId == leaderId && x.registerNumber in updated
    then x.(event2 := Some(event), slot2 := Some(slot))
    else x
  }

  // ---------------------------------------------------------------------------
  // Applying the plan

  /**
   * The route's write loop from action `i` on. `failAt` names the write that throws, if
   * any; a create also throws when the unique index or document validation refuses it.
   * An update's snapshot is logged before its write is attempted, a create's id after.
   */
  function ApplyFrom(t: Store, plan: Plan, failAt: Option<nat>, i: nat, log: WriteLog): Outcome
    requires i <= |plan.actions|
    decreases |plan.actions| - i
  {
    if i == |plan.actions| then Committed(t, log)
    else match plan.actions[i]
      case Update(reg, e2, s2) =>
        var log' := log.(snapshots := log.snapshots + [Snapshot(reg, e2, s2)]);
        if failAt == Some(i) then Aborted(t, log')
        else ApplyFrom(SetSecond(t, plan.leaderId, reg, Some(plan.event), Some(plan.slot)), plan, failAt, i + 1, log')
      case Create(d) =>
        if failAt == Some(i) then Aborted(t, log)
        else match Insert(t, d)
          case None => Aborted(t, log)
          case Some(t') => ApplyFrom(t', plan, failAt, i + 1, log.(created := log.created + [d.registerNumber]))
  }

  function Apply(s: Store, plan: Plan, failAt: Option<nat>): Outcome {
    ApplyFrom(s, plan, failAt, 0, WriteLog([], []))
  }

  // ---------------------------------------------------------------------------
  // Rolling back

  /** Keeps the records the batch did not create. */
  function NotCreated(leaderId: string, created: seq<string>): Record -> bool {
    (x: Record) => !(x.leaderId == leaderId && x.registerNumber in created)
  }

  /** Puts each snapshot's second event back, in the order they were taken. */
  function Restore(t: Store, leaderId: string, snaps: seq<Snapshot>): Store
    decreases |snaps|
  {
    if |snaps| == 0 then t
    else
      var sn := snaps[0];
      Restore(SetSecond(t, leaderId, sn.registerNumber, sn.prevEvent2, sn.prevSlot2), leaderId, snaps[1..])
  }

  /** `deleteMany({ _id: { $in: createdIds } })`, then one restoring update per snapshot. */
  function Rollback(t: Store, leaderId: string, log: WriteLog): Store {
    Restore(Seqs.Filter(t, NotCreated(leaderId, log.created)), leaderId, log.snapshots)
  }

  // ---------------------------------------------------------------------------
  // What a plan must satisfy for its writes and their undo to behave

  /** Two records are the same except, perhaps, for their second event. */
  predicate SameButSecond(a: Record, b: Record) {
    a.(event2 := b.event2, slot2 := b.slot2) == b
  }

  /** The snapshot holds the second event the original store has for that student. */
  ghost predicate SnapFits(s0: Store, leaderId: string, sn: Snapshot) {
    forall k :: 0 <= k < |s0| && s0[k].leaderId == leaderId && s0[k].registerNumber == sn.registerNumber ==>
      sn.prevEvent2 == s0[k].event2 && sn.prevSlot2 == s0[k].slot2
  }

  /**
   * A plan fit for the store: distinct students; each update of a stored student,
   * snapshotting its stored second event; each create of a student not yet stored, under
   * the plan's leader, for the plan's event.
   */
  ghost predicate PlanFits(s0: Store, plan: Plan) {
    var acts := plan.actions;
    var L := plan.leaderId;
    && (forall i, j :: 0 <= i < j < |acts| ==> RegOf(acts[i]) != RegOf(acts[j]))
    && (forall i :: 0 <= i < |acts| && acts[i].Update? ==>
          && HasKey(s0, L, acts[i].registerNumber)
          && SnapFits(s0, L, Snapshot(acts[i].registerNumber, acts[i].prevEvent2, acts[i].prevSlot2)))
    && (forall i :: 0 <= i < |acts| && acts[i].Create? ==>
          && !HasKey(s0, L, acts[i].doc.registerNumber)
          && acts[i].doc.leaderId == L
          && acts[i].doc.event1 == plan.event && acts[i].doc.slot1 == plan.slot)
  }

  /**
   * The store and log after the first `n` actions went through: the original records with
   * the updated students marked, followed by the created records in order.
   */
  ghost predicate Applied(s0: Store, plan: Plan, n: nat, t: Store, log: WriteLog)
    requires n <= |plan.actions|
  {
    var pre := plan.actions[..n];
    var docs := Docs(pre);
    && |t| == |s0| + |docs|
    && (forall k :: 0 <= k < |s0| ==>
          t[k] == Mark(s0[k], plan.leaderId, SnapRegs(Snaps(pre)), plan.event, plan.slot))
    && (forall k :: 0 <= k < |docs| ==> Cast(docs[k]).Some? && t[|s0| + k] == Cast(docs[k]).value)
    && log == WriteLog(DocRegs(docs), Snaps(pre))
  }

  /**
   * What the rollback relies on: the original records, changed at most in the second
   * event of snapshotted students, then exactly the created records; the created students
   * were not stored before, and every snapshot holds the original second event.
   */
  ghost predicate Recoverable(s0: Store, leaderId: string, t: Store, log: WriteLog) {
    && |t| == |s0| + |log.created|
    && (forall k :: 0 <= k < |s0| ==> SameButSecond(t[k], s0[k]))
    && (forall k :: 0 <= k < |s0| && t[k] != s0[k] ==>
          s0[k].leaderId == leaderId && s0[k].registerNumber in SnapRegs(log.snapshots))
    && (forall k :: |s0| <= k < |t| ==> t[k].leaderId == leaderId)
    && (forall k :: 0 <= k < |log.created| ==> t[|s0| + k].registerNumber == log.created[k])
    && (forall k :: 0 <= k < |s0| && s0[k].leaderId == leaderId ==> s0[k].registerNumber !in log.created)
    && (forall j :: 0 <= j < |log.snapshots| ==> SnapFits(s0, leaderId, log.snapshots[j]))
  }

  // ---------------------------------------------------------------------------
  // The rollback restores the original store

  /** Restoring the snapshots puts every changed second event back and touches nothing else. */
  lemma {:induction false} RestoreFixes(s0: Store, leaderId: string, t: Store, snaps: seq<Snapshot>)
    requires |t| == |s0|
    requires forall k :: 0 <= k < |s0| ==> SameButSecond(t[k], s0[k])
    requires forall k :: 0 <= k < |s0| && t[k] != s0[k] ==>
      s0[k].leaderId == leaderId && s0[k].registerNumber in SnapRegs(snaps)
    requires forall j :: 0 <= j < |snaps| ==> SnapFits(s0, leaderId, snaps[j])
    ensures Restore(t, leaderId, snaps) == s0
    decreases |snaps|
  {
    if |snaps| == 0 {
      assert forall k :: 0 <= k < |s0| ==> t[k] == s0[k];
    } else {
      var sn := snaps[0];
      var t' := SetSecond(t, leaderId, sn.registerNumber, sn.prevEvent2, sn.prevSlot2);
      assert SnapFits(s0, leaderId, sn);
      forall k | 0 <= k < |s0| && t'[k] != s0[k]
        ensures s0[k].leaderId == leaderId && s0[k].registerNumber in SnapRegs(snaps[1..])
      {
        var j :| 0 <= j < |snaps| && snaps[j].registerNumber == s0[k].registerNumber;
        assert j != 0;
        assert snaps[1..][j - 1] == snaps[j];
      }
      forall j | 0 <= j < |snaps[1..]| ensures SnapFits(s0, leaderId, snaps[1..][j]) {
        assert snaps[1..][j] == snaps[j + 1];
      }
      RestoreFixes(s0, leaderId, t', snaps[1..]);
    }
  }

  /** The deletion removes exactly the created records, which sit after the original ones. */
  lemma DeleteCreated(s0: Store, leaderId: string, t: Store, log: WriteLog)
    requires Recoverable(s0, leaderId, t, log)
    ensures Seqs.Filter(t, NotCreated(leaderId, log.created)) == t[..|s0|]
  {
    var p := NotCreated(leaderId, log.created);
    var a, b := t[..|s0|], t[|s0|..];
    assert t == a + b;
    Seqs.FilterAppend(a, b, p);
    forall k | 0 <= k < |a| ensures p(a[k]) {
      assert SameButSecond(t[k], s0[k]);
    }
    Seqs.FilterKeepsAll(a, p);
    forall k | 0 <= k < |b| ensures !p(b[k]) {
      assert b[k] == t[|s0| + k];
      assert b[k].registerNumber == log.created[k];
    }
    Seqs.FilterDropsAll(b, p);
  }

  /** From any recoverable state the rollback yields the original store, record for record. */
  lemma RollbackRestores(s0: Store, leaderId: string, t: Store, log: WriteLog)
    requires Recoverable(s0, leaderId, t, log)
    ensures Rollback(t, leaderId, log) == s0
  {
    DeleteCreated(s0, leaderId, t, log);
    var kept := t[..|s0|];
    forall k | 0 <= k < |s0| ensures SameButSecond(kept[k], s0[k]) && (kept[k] != s0[k] ==>
      s0[k].leaderId == leaderId && s0[k].registerNumber in SnapRegs(log.snapshots))
    {
      assert kept[k] == t[k];
    }
    RestoreFixes(s0, leaderId, kept, log.snapshots);
  }

  // ---------------------------------------------------------------------------
  // Where the logged documents and snapshots come from

  /** Every created document is the document of one of the create actions. */
  lemma {:induction false} DocsFromCreates(acts: seq<Action>)
    ensures forall k :: 0 <= k < |Docs(acts)| ==>
      exists i :: 0 <= i < |acts| && acts[i] == Create(Docs(acts)[k])
    decreases |acts|
  {
    if |acts| > 0 {
      var init := acts[..|acts| - 1];
      DocsFromCreates(init);
      var last := acts[|acts| - 1];
      assert Docs(acts) == Docs(init) + (if last.Create? then [last.doc] else []);
      forall k | 0 <= k < |Docs(acts)| ensures exists i :: 0 <= i < |acts| && acts[i] == Create(Docs(acts)[k]) {
        if k < |Docs(init)| {
          var i :| 0 <= i < |init| && init[i] == Create(Docs(init)[k]);
          assert acts[i] == init[i];
        } else {
          assert acts[|acts| - 1] == Create(Docs(acts)[k]);
        }
      }
    } else {
      assert Docs(acts) == [];
    }
  }

  /** Every snapshot is the one an update action takes. */
  lemma {:induction false} SnapsFromUpdates(acts: seq<Action>)
    ensures forall j :: 0 <= j < |Snaps(acts)| ==> exists i :: (0 <= i < |acts| && acts[i].Update?
      && Snaps(acts)[j] == Snapshot(acts[i].registerNumber, acts[i].prevEvent2, acts[i].prevSlot2))
    decreases |acts|
  {
    if |acts| > 0 {
      var init := acts[..|acts| - 1];
      SnapsFromUpdates(init);
      var last := acts[|acts| - 1];
      assert Snaps(acts) == Snaps(init)
        + (if last.Update? then [Snapshot(last.registerNumber, last.prevEvent2, last.prevSlot2)] else []);
      forall j | 0 <= j < |Snaps(acts)| ensures exists i :: (0 <= i < |acts| && acts[i].Update?
        && Snaps(acts)[j] == Snapshot(acts[i].registerNumber, acts[i].prevEvent2, acts[i].prevSlot2))
      {
        if j < |Snaps(init)| {
          assert Snaps(acts)[j] == Snaps(init)[j];
          var i :| 0 <= i < |init| && init[i].Update?
            && Snaps(init)[j] == Snapshot(init[i].registerNumber, init[i].prevEvent2, init[i].prevSlot2);
          assert acts[i] == init[i];
        } else {
          var i := |acts| - 1;
          assert acts[i].Update?;
        }
      }
    } else {
      assert Snaps(acts) == [];
    }
  }

  /** Every update's student appears among the snapshots. */
  lemma {:induction false} UpdatesLogged(acts: seq<Action>)
    ensures forall i :: 0 <= i < |acts| && acts[i].Update? ==> acts[i].registerNumber in SnapRegs(Snaps(acts))
    decreases |acts|
  {
    if |acts| > 0 {
      var init := acts[..|acts| - 1];
      var last := acts[|acts| - 1];
      UpdatesLogged(init);
      var extra := if last.Update? then [Snapshot(last.registerNumber, last.prevEvent2, last.prevSlot2)] else [];
      assert Snaps(acts) == Snaps(init) + extra;
      forall i | 0 <= i < |acts| && acts[i].Update? ensures acts[i].registerNumber in SnapRegs(Snaps(acts)) {
        if i < |init| {
          assert init[i] == acts[i];
          var j :| 0 <= j < |Snaps(init)| && SnapRegs(Snaps(init))[j] == acts[i].registerNumber;
          assert SnapRegs(Snaps(acts))[j] == acts[i].registerNumber;
        } else {
          assert SnapRegs(Snaps(acts))[|Snaps(init)|] == acts[i].registerNumber;
        }
      }
    }
  }

  /** Every create's document appears among the created documents. */
  lemma {:induction false} CreatesLogged(acts: seq<Action>)
    ensures forall i :: 0 <= i < |acts| && acts[i].Create? ==> acts[i].doc in Docs(acts)
    decreases |acts|
  {
    if |acts| > 0 {
      var init := acts[..|acts| - 1];
      var last := acts[|acts| - 1];
      CreatesLogged(init);
      assert Docs(acts) == Docs(init) + (if last.Create? then [last.doc] else []);
      forall i | 0 <= i < |acts| && acts[i].Create? ensures acts[i].doc in Docs(acts) {
        if i < |init| {
          assert init[i] == acts[i];
        }
      }
    }
  }

  /** Each action writes a different student, so the created documents name different students. */
  lemma {:induction false} CreatedDistinct(acts: seq<Action>)
    requires forall i, j :: 0 <= i < j < |acts| ==> RegOf(acts[i]) != RegOf(acts[j])
    ensures forall m, n :: 0 <= m < n < |Docs(acts)| ==> Docs(acts)[m].registerNumber != Docs(acts)[n].registerNumber
    decreases |acts|
  {
    if |acts| > 0 {
      var init := acts[..|acts| - 1];
      var last := acts[|acts| - 1];
      CreatedDistinct(init);
      DocsFromCreates(init);
      assert Docs(acts) == Docs(init) + (if last.Create? then [last.doc] else []);
      forall m, n | 0 <= m < n < |Docs(acts)|
        ensures Docs(acts)[m].registerNumber != Docs(acts)[n].registerNumber
      {
        if n >= |Docs(init)| {
          var j :| 0 <= j < |init| && init[j] == Create(Docs(init)[m]);
          assert RegOf(acts[j]) != RegOf(last);
        }
      }
    }
  }

  /** A plan writes each student once, so one of its creates and one of its updates each other. */
  lemma {:induction false} CountsAddUp(acts: seq<Action>)
    ensures |Docs(acts)| + |Snaps(acts)| == |acts|
    decreases |acts|
  {
    if |acts| > 0 {
      CountsAddUp(acts[..|acts| - 1]);
    }
  }

  // ---------------------------------------------------------------------------
  // One write at a time

  /** The snapshotted students of a longer log: the earlier ones and the new one. */
  lemma SnapRegsAppend(snaps: seq<Snapshot>, sn: Snapshot, x: string)
    ensures x in SnapRegs(snaps + [sn]) <==> x in SnapRegs(snaps) || x == sn.registerNumber
  {
    var all := snaps + [sn];
    if x in SnapRegs(all) {
      var j :| 0 <= j < |all| && SnapRegs(all)[j] == x;
      if j < |snaps| {
        assert SnapRegs(snaps)[j] == x;
      }
    }
    if x in SnapRegs(snaps) {
      var j :| 0 <= j < |snaps| && SnapRegs(snaps)[j] == x;
      assert SnapRegs(all)[j] == x;
    }
    if x == sn.registerNumber {
      assert SnapRegs(all)[|snaps|] == x;
    }
  }

  /** The created records sit after the original ones and belong to students the plan creates. */
  lemma CreatedOfPlan(s0: Store, plan: Plan, i: nat, t: Store, log: WriteLog, m: nat)
    requires PlanFits(s0, plan) && i <= |plan.actions| && Applied(s0, plan, i, t, log)
    requires m < |Docs(plan.actions[..i])|
    ensures exists j :: 0 <= j < i && plan.actions[j] == Create(Docs(plan.actions[..i])[m])
    ensures t[|s0| + m].leaderId == plan.leaderId
    ensures t[|s0| + m].registerNumber == Docs(plan.actions[..i])[m].registerNumber
    ensures !HasKey(s0, plan.leaderId, t[|s0| + m].registerNumber)
  {
    var pre := plan.actions[..i];
    DocsFromCreates(pre);
    var j :| 0 <= j < |pre| && pre[j] == Create(Docs(pre)[m]);
    assert plan.actions[j] == pre[j];
  }

  /** An update after `i` applied actions marks its student and leaves the created records alone. */
  lemma UpdateStep(s0: Store, plan: Plan, i: nat, t: Store, log: WriteLog)
    requires PlanFits(s0, plan) && i < |plan.actions| && plan.actions[i].Update?
    requires Applied(s0, plan, i, t, log)
    ensures var a := plan.actions[i];
      Applied(s0, plan, i + 1,
        SetSecond(t, plan.leaderId, a.registerNumber, Some(plan.event), Some(plan.slot)),
        log.(snapshots := log.snapshots + [Snapshot(a.registerNumber, a.prevEvent2, a.prevSlot2)]))
  {
    var acts := plan.actions;
    var a := acts[i];
    var L := plan.leaderId;
    var sn := Snapshot(a.registerNumber, a.prevEvent2, a.prevSlot2);
    var pre, pre' := acts[..i], acts[..i + 1];
    assert pre'[..i] == pre;
    assert Docs(pre') == Docs(pre);
    assert Snaps(pre') == Snaps(pre) + [sn];
    var t' := SetSecond(t, L, a.registerNumber, Some(plan.event), Some(plan.slot));
    var U, U' := SnapRegs(Snaps(pre)), SnapRegs(Snaps(pre'));
    forall k | 0 <= k < |s0| ensures t'[k] == Mark(s0[k], L, U', plan.event, plan.slot) {
      SnapRegsAppend(Snaps(pre), sn, s0[k].registerNumber);
    }
    var docs := Docs(pre);
    forall m | 0 <= m < |docs| ensures Cast(docs[m]).Some? && t'[|s0| + m] == Cast(docs[m]).value {
      CreatedOfPlan(s0, plan, i, t, log, m);
      var j :| 0 <= j < i && acts[j] == Create(docs[m]);
      assert RegOf(acts[j]) != RegOf(acts[i]);
    }
  }

  /**
   * A create after `i` applied actions passes the unique index, so it succeeds exactly when
   * document validation does, and then appends the new record.
   */
  lemma CreateStep(s0: Store, plan: Plan, i: nat, t: Store, log: WriteLog)
    requires PlanFits(s0, plan) && i < |plan.actions| && plan.actions[i].Create?
    requires Applied(s0, plan, i, t, log)
    ensures var d := plan.actions[i].doc;
      && (Insert(t, d).Some? <==> Cast(d).Some?)
      && (Insert(t, d).Some? ==>
            Applied(s0, plan, i + 1, Insert(t, d).value, log.(created := log.created + [d.registerNumber])))
  {
    var acts := plan.actions;
    var d := acts[i].doc;
    var pre, pre' := acts[..i], acts[..i + 1];
    CreateIsFresh(s0, plan, i, t, log);
    assert pre'[..i] == pre;
    assert Docs(pre') == Docs(pre) + [d];
    assert Snaps(pre') == Snaps(pre);
    assert DocRegs(Docs(pre')) == DocRegs(Docs(pre)) + [d.registerNumber];
  }

  /** The student a create writes is in the store neither before the batch nor among its creates. */
  lemma CreateIsFresh(s0: Store, plan: Plan, i: nat, t: Store, log: WriteLog)
    requires PlanFits(s0, plan) && i < |plan.actions| && plan.actions[i].Create?
    requires Applied(s0, plan, i, t, log)
    ensures !HasKey(t, plan.leaderId, plan.actions[i].doc.registerNumber)
  {
    var acts := plan.actions;
    var d := acts[i].doc;
    var L := plan.leaderId;
    forall k | 0 <= k < |t| ensures !(t[k].leaderId == L && t[k].registerNumber == d.registerNumber) {
      if k >= |s0| {
        CreatedOfPlan(s0, plan, i, t, log, k - |s0|);
        var j :| 0 <= j < i && acts[j] == Create(Docs(acts[..i])[k - |s0|]);
        assert RegOf(acts[j]) != RegOf(acts[i]);
      } else {
        assert t[k] == Mark(s0[k], L, SnapRegs(Snaps(acts[..i])), plan.event, plan.slot);
      }
    }
  }

  /** The state after `i` applied actions can be rolled back. */
  lemma AppliedIsRecoverable(s0: Store, plan: Plan, i: nat, t: Store, log: WriteLog)
    requires PlanFits(s0, plan) && i <= |plan.actions| && Applied(s0, plan, i, t, log)
    ensures Recoverable(s0, plan.leaderId, t, log)
  {
    AppliedChangesSeconds(s0, plan, i, t, log);
    AppliedCreatesLogged(s0, plan, i, t, log);
    AppliedCreatesFresh(s0, plan, i, t, log);
    AppliedSnapshotsFit(s0, plan, i, t, log);
  }

  /** After `i` applied actions, stored records differ only in the second event of logged students. */
  lemma AppliedChangesSeconds(s0: Store, plan: Plan, i: nat, t: Store, log: WriteLog)
    requires i <= |plan.actions| && Applied(s0, plan, i, t, log)
    ensures |t| == |s0| + |log.created|
    ensures forall k :: 0 <= k < |s0| ==> SameButSecond(t[k], s0[k])
    ensures forall k :: 0 <= k < |s0| && t[k] != s0[k] ==>
      s0[k].leaderId == plan.leaderId && s0[k].registerNumber in SnapRegs(log.snapshots)
  {
    var pre := plan.actions[..i];
    forall k | 0 <= k < |s0| ensures SameButSecond(t[k], s0[k]) && (t[k] != s0[k] ==>
      s0[k].leaderId == plan.leaderId && s0[k].registerNumber in SnapRegs(log.snapshots))
    {
      assert t[k] == Mark(s0[k], plan.leaderId, SnapRegs(Snaps(pre)), plan.event, plan.slot);
    }
  }

  /** After `i` applied actions, the appended records are the logged creates, under the plan's leader. */
  lemma AppliedCreatesLogged(s0: Store, plan: Plan, i: nat, t: Store, log: WriteLog)
    requires PlanFits(s0, plan) && i <= |plan.actions| && Applied(s0, plan, i, t, log)
    ensures forall k :: |s0| <= k < |t| ==> t[k].leaderId == plan.leaderId
    ensures forall k :: 0 <= k < |log.created| ==> t[|s0| + k].registerNumber == log.created[k]
  {
    forall k | |s0| <= k < |t| ensures t[k].leaderId == plan.leaderId {
      CreatedOfPlan(s0, plan, i, t, log, k - |s0|);
    }
    forall m | 0 <= m < |log.created| ensures t[|s0| + m].registerNumber == log.created[m] {
      CreatedOfPlan(s0, plan, i, t, log, m);
    }
  }

  /** After `i` applied actions, no logged create names a student the original store holds. */
  lemma AppliedCreatesFresh(s0: Store, plan: Plan, i: nat, t: Store, log: WriteLog)
    requires PlanFits(s0, plan) && i <= |plan.actions| && Applied(s0, plan, i, t, log)
    ensures forall k :: 0 <= k < |s0| && s0[k].leaderId == plan.leaderId ==> s0[k].registerNumber !in log.created
  {
    forall k | 0 <= k < |s0| && s0[k].leaderId == plan.leaderId ensures s0[k].registerNumber !in log.created {
      if s0[k].registerNumber in log.created {
        var m :| 0 <= m < |log.created| && log.created[m] == s0[k].registerNumber;
        CreatedOfPlan(s0, plan, i, t, log, m);
      }
    }
  }

  /** After `i` applied actions, every logged snapshot holds the original second event. */
  lemma AppliedSnapshotsFit(s0: Store, plan: Plan, i: nat, t: Store, log: WriteLog)
    requires PlanFits(s0, plan) && i <= |plan.actions| && Applied(s0, plan, i, t, log)
    ensures forall j :: 0 <= j < |log.snapshots| ==> SnapFits(s0, plan.leaderId, log.snapshots[j])
  {
    var pre := plan.actions[..i];
    SnapsFromUpdates(pre);
    assert log.snapshots == Snaps(pre);
    forall j | 0 <= j < |log.snapshots| ensures SnapFits(s0, plan.leaderId, log.snapshots[j]) {
      assert log.snapshots[j] == Snaps(pre)[j];
      var n :| 0 <= n < |pre| && pre[n].Update?
        && Snaps(pre)[j] == Snapshot(pre[n].registerNumber, pre[n].prevEvent2, pre[n].prevSlot2);
      assert plan.actions[n] == pre[n];
    }
  }

  /** Logging one more snapshot of the original second event keeps the state recoverable. */
  lemma RecoverableWithSnapshot(s0: Store, leaderId: string, t: Store, log: WriteLog, sn: Snapshot)
    requires Recoverable(s0, leaderId, t, log) && SnapFits(s0, leaderId, sn)
    ensures Recoverable(s0, leaderId, t, log.(snapshots := log.snapshots + [sn]))
  {
    var snaps := log.snapshots + [sn];
    forall k | 0 <= k < |s0| && t[k] != s0[k]
      ensures s0[k].registerNumber in SnapRegs(snaps)
    {
      SnapRegsAppend(log.snapshots, sn, s0[k].registerNumber);
    }
    var log' := log.(snapshots := snaps);
    assert log'.created == log.created;
    forall j | 0 <= j < |snaps| ensures SnapFits(s0, leaderId, snaps[j]) {
      if j < |log.snapshots| {
        assert snaps[j] == log.snapshots[j];
      }
    }
  }

  // ---------------------------------------------------------------------------
  // The whole write loop

  /** Write `j` of the plan goes through: it is not the failing one and, if a create, validates. */
  ghost predicate WriteSucceeds(plan: Plan, failAt: Option<nat>, j: nat)
    requires j < |plan.actions|
  {
    failAt != Some(j) && (plan.actions[j].Create? ==> Cast(plan.actions[j].doc).Some?)
  }

  /** The outcome of the write loop from action `i` on, as the lemmas below establish it. */
  ghost predicate SoundFrom(s0: Store, plan: Plan, failAt: Option<nat>, i: nat, o: Outcome)
    requires i <= |plan.actions|
  {
    && (o.Committed? <==> forall j :: i <= j < |plan.actions| ==> WriteSucceeds(plan, failAt, j))
    && (o.Committed? ==> Applied(s0, plan, |plan.actions|, o.store, o.log))
    && (o.Aborted? ==> Recoverable(s0, plan.leaderId, o.store, o.log))
  }

  /**
   * The remaining writes all land exactly when none of them fails, and then the store holds
   * the plan's effect; otherwise the loop stops in a state the rollback undoes.
   */
  lemma {:induction false} ApplyFromSound(s0: Store, plan: Plan, failAt: Option<nat>, i: nat, t: Store, log: WriteLog)
    requires PlanFits(s0, plan) && i <= |plan.actions| && Applied(s0, plan, i, t, log)
    ensures SoundFrom(s0, plan, failAt, i, ApplyFrom(t, plan, failAt, i, log))
    decreases |plan.actions| - i, 1
  {
    if i == |plan.actions| {
    } else if plan.actions[i].Update? {
      UpdateSound(s0, plan, failAt, i, t, log);
    } else {
      CreateSound(s0, plan, failAt, i, t, log);
    }
  }

  /** `ApplyFromSound` when the next action is an update. */
  lemma {:induction false} UpdateSound(s0: Store, plan: Plan, failAt: Option<nat>, i: nat, t: Store, log: WriteLog)
    requires PlanFits(s0, plan) && i < |plan.actions| && plan.actions[i].Update? && Applied(s0, plan, i, t, log)
    ensures SoundFrom(s0, plan, failAt, i, ApplyFrom(t, plan, failAt, i, log))
    decreases |plan.actions| - i, 0
  {
    var a := plan.actions[i];
    var sn := Snapshot(a.registerNumber, a.prevEvent2, a.prevSlot2);
    var log' := log.(snapshots := log.snapshots + [sn]);
    if failAt == Some(i) {
      UpdateFailsRecoverably(s0, plan, i, t, log);
      SoundStops(s0, plan, failAt, i, ApplyFrom(t, plan, failAt, i, log));
    } else {
      UpdateStep(s0, plan, i, t, log);
      var t' := SetSecond(t, plan.leaderId, a.registerNumber, Some(plan.event), Some(plan.slot));
      ApplyFromSound(s0, plan, failAt, i + 1, t', log');
      assert ApplyFrom(t, plan, failAt, i, log) == ApplyFrom(t', plan, failAt, i + 1, log');
      SoundExtends(s0, plan, failAt, i, ApplyFrom(t', plan, failAt, i + 1, log'));
    }
  }

  /** A write that lands extends the soundness of the rest of the loop to this step. */
  lemma SoundExtends(s0: Store, plan: Plan, failAt: Option<nat>, i: nat, o: Outcome)
    requires i < |plan.actions| && WriteSucceeds(plan, failAt, i) && SoundFrom(s0, plan, failAt, i + 1, o)
    ensures SoundFrom(s0, plan, failAt, i, o)
  {
    if o.Committed? {
      forall j | i <= j < |plan.actions| ensures WriteSucceeds(plan, failAt, j) {
        if j > i {
          assert i + 1 <= j;
        }
      }
    }
  }

  /** A write that fails stops the loop in a recoverable state. */
  lemma SoundStops(s0: Store, plan: Plan, failAt: Option<nat>, i: nat, o: Outcome)
    requires i < |plan.actions| && !WriteSucceeds(plan, failAt, i)
    requires o.Aborted? && Recoverable(s0, plan.leaderId, o.store, o.log)
    ensures SoundFrom(s0, plan, failAt, i, o)
  {
  }

  /** An update that throws leaves its snapshot logged and the state recoverable. */
  lemma UpdateFailsRecoverably(s0: Store, plan: Plan, i: nat, t: Store, log: WriteLog)
    requires PlanFits(s0, plan) && i < |plan.actions| && plan.actions[i].Update? && Applied(s0, plan, i, t, log)
    ensures var a := plan.actions[i];
      Recoverable(s0, plan.leaderId, t,
        log.(snapshots := log.snapshots + [Snapshot(a.registerNumber, a.prevEvent2, a.prevSlot2)]))
  {
    var a := plan.actions[i];
    var sn := Snapshot(a.registerNumber, a.prevEvent2, a.prevSlot2);
    AppliedIsRecoverable(s0, plan, i, t, log);
    assert SnapFits(s0, plan.leaderId, sn);
    RecoverableWithSnapshot(s0, plan.leaderId, t, log, sn);
  }

  /** `ApplyFromSound` when the next action is a create. */
  lemma {:induction false} CreateSound(s0: Store, plan: Plan, failAt: Option<nat>, i: nat, t: Store, log: WriteLog)
    requires PlanFits(s0, plan) && i < |plan.actions| && plan.actions[i].Create? && Applied(s0, plan, i, t, log)
    ensures SoundFrom(s0, plan, failAt, i, ApplyFrom(t, plan, failAt, i, log))
    decreases |plan.actions| - i, 0
  {
    var d := plan.actions[i].doc;
    if failAt == Some(i) {
      AppliedIsRecoverable(s0, plan, i, t, log);
      SoundStops(s0, plan, failAt, i, ApplyFrom(t, plan, failAt, i, log));
    } else {
      CreateStep(s0, plan, i, t, log);
      match Insert(t, d)
      case None =>
        AppliedIsRecoverable(s0, plan, i, t, log);
        SoundStops(s0, plan, failAt, i, ApplyFrom(t, plan, failAt, i, log));
      case Some(t') =>
        var log' := log.(created := log.created + [d.registerNumber]);
        ApplyFromSound(s0, plan, failAt, i + 1, t', log');
        assert ApplyFrom(t, plan, failAt, i, log) == ApplyFrom(t', plan, failAt, i + 1, log');
        SoundExtends(s0, plan, failAt, i, ApplyFrom(t', plan, failAt, i + 1, log'));
    }
  }

  /** The write loop from the start: the plan's full effect, or a state the rollback undoes. */
  lemma ApplySound(s0: Store, plan: Plan, failAt: Option<nat>)
    requires PlanFits(s0, plan)
    ensures var o := Apply(s0, plan, failAt);
      && (o.Committed? <==> forall j :: 0 <= j < |plan.actions| ==> WriteSucceeds(plan, failAt, j))
      && (o.Committed? ==> Applied(s0, plan, |plan.actions|, o.store, o.log))
      && (o.Aborted? ==> Rollback(o.store, plan.leaderId, o.log) == s0)
  {
    assert plan.actions[..0] == [];
    assert Applied(s0, plan, 0, s0, WriteLog([], []));
    ApplyFromSound(s0, plan, failAt, 0, s0, WriteLog([], []));
    var o := Apply(s0, plan, failAt);
    assert SoundFrom(s0, plan, failAt, 0, o);
    if o.Aborted? {
      RollbackRestores(s0, plan.leaderId, o.store, o.log);
    }
  }
}

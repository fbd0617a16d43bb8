/**
 * `/deleteteam/:leaderId/:event`: the team leaves one event. A record whose first event
 * it was moves its second event up, or is deleted when it has none; a record whose second
 * event it was loses its second event.
 */
module Detach {
  import opened Wrappers
  import opened Catalog
  import opened Records
  import opened Stats
  import Engine
  import opened Seqs

  datatype DetachOutcome = NotFound | Detached(store: Store, affected: nat)

  /** `{ leaderId, event1: event }`. */
  function FirstIs(leaderId: string, event: string): Record -> bool {
    (x: Record) => x.leaderId == leaderId && x.event1 == event
  }

  /** `{ leaderId, event2: event }`. */
  function SecondIs(leaderId: string, event: string): Record -> bool {
    (x: Record) => x.leaderId == leaderId && x.event2 == Some(event)
  }

  /** `updateMany({ leaderId, event2: event }, { $set: { event2: null, slot2: null } })`, record by record. */
  function ClearSecond(leaderId: string, event: string): Record -> Option<Record> {
    (x: Record) =>
      if x.leaderId == leaderId && x.event2 == Some(event) then Some(x.(event2 := None, slot2 := None))
      else Some(x)
  }

  /**
   * The write for one record `d` the first query returned, applied to each stored record:
   * the record with `d`'s key takes `d`'s second event as its first, or is deleted when `d`
   * had no second event. A record lacking a second slot is treated as lacking a second event.
   */
  function WriteFor(leaderId: string, d: Record): Record -> Option<Record> {
    (x: Record) =>
      if x.leaderId == leaderId && x.registerNumber == d.registerNumber then
        if Truthy(d.event2) && d.slot2.Some? then
          Some(x.(event1 := d.event2.value, slot1 := d.slot2.value, event2 := None, slot2 := None))
        else None
      else Some(x)
  }

  /** The loop over the first query's records, one write after another. */
  function ShiftFrom(t: Store, leaderId: string, docs: seq<Record>): Store
    decreases |docs|
  {
    if |docs| == 0 then t
    else ShiftFrom(FilterMap(t, WriteFor(leaderId, docs[0])), leaderId, docs[1..])
  }

  /**
   * `/deleteteam/:leaderId/:event`: both queries, then the clearing update, then the loop.
   * Its effect is stated by `DetachNotFound`, `DetachIsLeave`, `DetachCountsReferences`,
   * `DetachRemovesEvent`, `DetachKeepsOtherTeams` and `DetachKeepsValid`.
   */
  function DetachTeam(s: Store, leaderId: string, event: string): (r: DetachOutcome)
    ensures r.Detached? ==> |r.store| <= |s|
  {
    var inEvent1 := Filter(s, FirstIs(leaderId, event));
    var inEvent2 := Filter(s, SecondIs(leaderId, event));
    if |inEvent1| == 0 && |inEvent2| == 0 then NotFound
    else
      var t := ShiftFrom(FilterMap(s, ClearSecond(leaderId, event)), leaderId, inEvent1);
      assert |t| <= |s| by { ShiftShrinks(FilterMap(s, ClearSecond(leaderId, event)), leaderId, inEvent1); }
      Detached(t, |inEvent2| + |inEvent1|)
  }

  lemma {:induction false} ShiftShrinks(t: Store, leaderId: string, docs: seq<Record>)
    ensures |ShiftFrom(t, leaderId, docs)| <= |t|
    decreases |docs|
  {
    if |docs| > 0 {
      ShiftShrinks(FilterMap(t, WriteFor(leaderId, docs[0])), leaderId, docs[1..]);
    }
  }

  // ---------------------------------------------------------------------------
  // The route, record by record

  /** What leaving the event does to one record, stated directly. */
  function Leave(leaderId: string, event: string): Record -> Option<Record> {
    (x: Record) =>
      if x.leaderId != leaderId then Some(x)
      else if x.event1 == event then
        if Truthy(x.event2) && x.slot2.Some? then
          Some(x.(event1 := x.event2.value, slot1 := x.slot2.value, event2 := None, slot2 := None))
        else None
      else if x.event2 == Some(event) then Some(x.(event2 := None, slot2 := None))
      else Some(x)
  }

  /** The writes of the whole loop, composed. */
  function Writes(leaderId: string, docs: seq<Record>): Record -> Option<Record>
    decreases |docs|
  {
    if |docs| == 0 then (x: Record) => Some(x)
    else Then(WriteFor(leaderId, docs[0]), Writes(leaderId, docs[1..]))
  }

  /** The loop is one pass of its composed writes. */
  lemma {:induction false} ShiftIsOnePass(t: Store, leaderId: string, docs: seq<Record>)
    ensures ShiftFrom(t, leaderId, docs) == FilterMap(t, Writes(leaderId, docs))
    decreases |docs|
  {
    if |docs| == 0 {
      FilterMapSame(t, Writes(leaderId, docs), (x: Record) => Some(x));
      FilterMapIdentity(t);
    } else {
      var t' := FilterMap(t, WriteFor(leaderId, docs[0]));
      ShiftIsOnePass(t', leaderId, docs[1..]);
      FilterMapThen(t, WriteFor(leaderId, docs[0]), Writes(leaderId, docs[1..]));
    }
  }

  lemma {:induction false} FilterMapIdentity(t: Store)
    ensures FilterMap(t, (x: Record) => Some(x)) == t
    decreases |t|
  {
    if |t| > 0 {
      FilterMapIdentity(t[..|t| - 1]);
    }
  }

  /**
   * The composed writes touch a record only through the one document with its key, and
   * a second write from the same document changes nothing.
   */
  lemma {:induction false} WritesAt(leaderId: string, docs: seq<Record>, y: Record, d: Record)
    requires y.registerNumber == d.registerNumber
    requires forall k :: 0 <= k < |docs| && y.leaderId == leaderId && docs[k].registerNumber == y.registerNumber ==>
      docs[k] == d
    ensures Writes(leaderId, docs)(y) == if d in docs then WriteFor(leaderId, d)(y) else Some(y)
    decreases |docs|
  {
    if |docs| > 0 {
      var rest := docs[1..];
      assert forall k :: 0 <= k < |rest| ==> rest[k] == docs[k + 1];
      assert d in docs <==> d == docs[0] || d in rest;
      var w := WriteFor(leaderId, docs[0])(y);
      if w.Some? {
        var y' := w.value;
        WritesAt(leaderId, rest, y', d);
        if y.leaderId == leaderId && docs[0].registerNumber == y.registerNumber {
          assert docs[0] == d;
        }
      }
    }
  }

  /** Under the unique index, the route does to each record what `Leave` says. */
  lemma DetachIsLeave(s: Store, leaderId: string, event: string)
    requires UniqueKeys(s)
    ensures DetachTeam(s, leaderId, event).Detached? ==>
      DetachTeam(s, leaderId, event).store == FilterMap(s, Leave(leaderId, event))
  {
    var inEvent1 := Filter(s, FirstIs(leaderId, event));
    var clear := ClearSecond(leaderId, event);
    var w := Writes(leaderId, inEvent1);
    ShiftIsOnePass(FilterMap(s, clear), leaderId, inEvent1);
    FilterMapThen(s, clear, w);
    forall i | 0 <= i < |s| ensures Then(clear, w)(s[i]) == Leave(leaderId, event)(s[i]) {
      var x := s[i];
      var y := clear(x).value;
      forall k | 0 <= k < |inEvent1| && y.leaderId == leaderId && inEvent1[k].registerNumber == y.registerNumber
        ensures inEvent1[k] == x
      {
        var j :| 0 <= j < |s| && s[j] == inEvent1[k];
        assert FirstIs(leaderId, event)(inEvent1[k]);
        assert j == i;
      }
      WritesAt(leaderId, inEvent1, y, x);
      if x.leaderId == leaderId && x.event1 == event {
        assert FirstIs(leaderId, event)(x);
        assert x in inEvent1;
      }
    }
    FilterMapSame(s, Then(clear, w), Leave(leaderId, event));
  }

  // ---------------------------------------------------------------------------
  // What leaving an event guarantees

  /** The route finds nothing to do exactly when no record of the leader names the event. */
  lemma DetachNotFound(s: Store, leaderId: string, event: string)
    ensures DetachTeam(s, leaderId, event) == NotFound <==> !Engine.EventTaken(s, leaderId, event)
  {
    FilterEmpty(s, FirstIs(leaderId, event));
    FilterEmpty(s, SecondIs(leaderId, event));
    if Engine.EventTaken(s, leaderId, event) {
      var i :| 0 <= i < |s| && s[i].leaderId == leaderId && s[i].References(event);
      assert FirstIs(leaderId, event)(s[i]) || SecondIs(leaderId, event)(s[i]);
    }
  }

  /** The leader's record names the event. */
  function NamesEvent(leaderId: string, event: string): Record -> bool {
    (x: Record) => x.leaderId == leaderId && x.References(event)
  }

  /** With well-formed records, the reported count is the number of the leader's records naming the event. */
  lemma DetachCountsReferences(s: Store, leaderId: string, event: string)
    requires forall i :: 0 <= i < |s| ==> WellFormed(s[i])
    ensures DetachTeam(s, leaderId, event).Detached? ==>
      DetachTeam(s, leaderId, event).affected == |Filter(s, NamesEvent(leaderId, event))|
  {
    forall i | 0 <= i < |s|
      ensures !(SecondIs(leaderId, event)(s[i]) && FirstIs(leaderId, event)(s[i]))
    {
      WellFormedEventsDiffer(s[i]);
    }
    FilterSplitCount(s, SecondIs(leaderId, event), FirstIs(leaderId, event), NamesEvent(leaderId, event));
  }

  /** Leaving the event, one well-formed record of the leader keeps every event it named except this one. */
  lemma LeaveNames(leaderId: string, event: string, x: Record, e: string)
    requires WellFormed(x) && x.leaderId == leaderId
    ensures var y := Leave(leaderId, event)(x);
      (y.Some? && Names(y.value, e)) <==> Names(x, e) && e != event
  {
    WellFormedEventsDiffer(x);
  }

  /** Leaving the event, a well-formed record of the leader no longer names it. */
  lemma LeaveDropsEvent(leaderId: string, event: string, x: Record)
    requires WellFormed(x)
    ensures var y := Leave(leaderId, event)(x);
      y.Some? && y.value.leaderId == leaderId ==> !y.value.References(event)
  {
    WellFormedEventsDiffer(x);
  }

  /** A well-formed record stays well formed and keeps its key and leader when it leaves an event. */
  lemma LeaveWellFormed(leaderId: string, event: string, x: Record)
    requires WellFormed(x)
    ensures var y := Leave(leaderId, event)(x);
      y.Some? ==> WellFormed(y.value) && y.value.leaderId == x.leaderId && y.value.registerNumber == x.registerNumber
  {
    WellFormedEventsDiffer(x);
  }

  /** After every record left the event, no record of the leader names it. */
  lemma LeaveClearsEvent(s: Store, leaderId: string, event: string)
    requires forall i :: 0 <= i < |s| ==> WellFormed(s[i])
    ensures !Engine.EventTaken(FilterMap(s, Leave(leaderId, event)), leaderId, event)
  {
    var t := FilterMap(s, Leave(leaderId, event));
    forall k | 0 <= k < |t| && t[k].leaderId == leaderId ensures !t[k].References(event) {
      FilterMapMember(s, Leave(leaderId, event), t[k]);
      var i :| 0 <= i < |s| && Leave(leaderId, event)(s[i]) == Some(t[k]);
      LeaveDropsEvent(leaderId, event, s[i]);
    }
  }

  /** Afterwards no record of the leader names the event. */
  lemma DetachLeavesEvent(s: Store, leaderId: string, event: string)
    requires Valid(s)
    ensures DetachTeam(s, leaderId, event).Detached? ==>
      !Engine.EventTaken(DetachTeam(s, leaderId, event).store, leaderId, event)
  {
    DetachIsLeave(s, leaderId, event);
    LeaveClearsEvent(s, leaderId, event);
  }

  /** Other leaders' records are left exactly as they were. */
  lemma DetachKeepsOtherTeams(s: Store, leaderId: string, event: string, other: string)
    requires UniqueKeys(s) && other != leaderId && DetachTeam(s, leaderId, event).Detached?
    ensures Filter(DetachTeam(s, leaderId, event).store, OfLeader(other)) == Filter(s, OfLeader(other))
  {
    DetachIsLeave(s, leaderId, event);
    FilterMapKeepsSelected(s, Leave(leaderId, event), OfLeader(other));
  }

  /** After every record left the event, a record of the leader names `e` exactly when one did before and `e` is another event. */
  lemma LeaveKeepsOtherEvents(s: Store, leaderId: string, event: string, e: string)
    requires forall i :: 0 <= i < |s| ==> WellFormed(s[i])
    ensures var t := FilterMap(s, Leave(leaderId, event));
      (exists k :: 0 <= k < |t| && t[k].leaderId == leaderId && Names(t[k], e)) <==>
      (exists i :: 0 <= i < |s| && s[i].leaderId == leaderId && Names(s[i], e)) && e != event
  {
    var f := Leave(leaderId, event);
    var t := FilterMap(s, f);
    if exists k :: 0 <= k < |t| && t[k].leaderId == leaderId && Names(t[k], e) {
      var k :| 0 <= k < |t| && t[k].leaderId == leaderId && Names(t[k], e);
      FilterMapMember(s, f, t[k]);
      var i :| 0 <= i < |s| && f(s[i]) == Some(t[k]);
      LeaveWellFormed(leaderId, event, s[i]);
      LeaveNames(leaderId, event, s[i], e);
    }
    if (exists i :: 0 <= i < |s| && s[i].leaderId == leaderId && Names(s[i], e)) && e != event {
      var i :| 0 <= i < |s| && s[i].leaderId == leaderId && Names(s[i], e);
      LeaveNames(leaderId, event, s[i], e);
      LeaveWellFormed(leaderId, event, s[i]);
      var y := f(s[i]).value;
      FilterMapMember(s, f, y);
      var k :| 0 <= k < |t| && f(s[i]) == Some(t[k]);
    }
  }

  /** After every record left the event, the team's events are those before, less this one. */
  lemma LeaveRemovesEvent(s: Store, leaderId: string, event: string)
    requires forall i :: 0 <= i < |s| ==> WellFormed(s[i])
    ensures TeamEvents(FilterMap(s, Leave(leaderId, event)), leaderId) == TeamEvents(s, leaderId) - {event}
  {
    var t := FilterMap(s, Leave(leaderId, event));
    forall e ensures e in TeamEvents(t, leaderId) <==> e in TeamEvents(s, leaderId) && e != event {
      TeamEventsNames(t, leaderId, e);
      TeamEventsNames(s, leaderId, e);
      LeaveKeepsOtherEvents(s, leaderId, event, e);
    }
  }

  /** The team's events afterwards are its events before, less this one. */
  lemma DetachRemovesEvent(s: Store, leaderId: string, event: string)
    requires Valid(s)
    ensures DetachTeam(s, leaderId, event).Detached? ==>
      TeamEvents(DetachTeam(s, leaderId, event).store, leaderId) == TeamEvents(s, leaderId) - {event}
  {
    DetachIsLeave(s, leaderId, event);
    LeaveRemovesEvent(s, leaderId, event);
  }

  /** Leaving an event keeps the store valid. */
  lemma DetachKeepsValid(s: Store, leaderId: string, event: string)
    requires Valid(s)
    ensures DetachTeam(s, leaderId, event).Detached? ==> Valid(DetachTeam(s, leaderId, event).store)
  {
    DetachIsLeave(s, leaderId, event);
    LeaveKeepsValid(s, leaderId, event);
  }

  /** Every record leaving the event keeps the store valid: keys, record shapes and the cap. */
  lemma LeaveKeepsValid(s: Store, leaderId: string, event: string)
    requires Valid(s)
    ensures Valid(FilterMap(s, Leave(leaderId, event)))
  {
    var f := Leave(leaderId, event);
    var t := FilterMap(s, f);
    forall i | 0 <= i < |s| && f(s[i]).Some?
      ensures WellFormed(f(s[i]).value)
      ensures f(s[i]).value.leaderId == s[i].leaderId && f(s[i]).value.registerNumber == s[i].registerNumber
    {
      LeaveWellFormed(leaderId, event, s[i]);
    }
    FilterMapKeysDistinct(s, f, (x: Record) => (x.leaderId, x.registerNumber));
    forall i, j | 0 <= i < j < |t| ensures t[i].leaderId != t[j].leaderId || t[i].registerNumber != t[j].registerNumber {
      assert (t[i].leaderId, t[i].registerNumber) != (t[j].leaderId, t[j].registerNumber);
    }
    forall k | 0 <= k < |t| ensures WellFormed(t[k]) && CountFor(t, t[k].leaderId) <= MaxStudents {
      FilterMapMember(s, f, t[k]);
      var i :| 0 <= i < |s| && f(s[i]) == Some(t[k]);
      FilterMapCount(s, f, OfLeader(t[k].leaderId));
    }
  }
}

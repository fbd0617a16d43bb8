/**
 * The team views of the participant routes: `/getcandidates` and `/stats/:leaderId`,
 * which list a leader's records with the distinct events they name.
 */
module Stats {
  import opened Wrappers
  import opened Records
  import Seqs

  /** A field JavaScript treats as true: present and not the empty string. */
  predicate Truthy(v: Option<string>) {
    v.Some? && v.value != ""
  }

  /** `registeredEvents.add(e)` guarded by `if (e)`: insertion order, no repeats. */
  function AddEvent(seen: seq<string>, e: Option<string>): (r: seq<string>)
    ensures forall x :: x in r <==> x in seen || (Truthy(e) && x == e.value)
  {
    if Truthy(e) && e.value !in seen then seen + [e.value] else seen
  }

  /** The events a record contributes: its first event, then its second. */
  ghost predicate Names(x: Record, e: string) {
    (x.event1 != "" && x.event1 == e) || (Truthy(x.event2) && x.event2.value == e)
  }

  /** The `Set` the routes fill from the records, read back as an array. */
  function EventList(students: seq<Record>): (r: seq<string>)
    ensures forall a, b :: 0 <= a < b < |r| ==> r[a] != r[b]
    decreases |students|
  {
    if |students| == 0 then []
    else
      var last := students[|students| - 1];
      var prev := EventList(students[..|students| - 1]);
      var r := AddEvent(AddEvent(prev, Some(last.event1)), last.event2);
      assert forall a, b :: 0 <= a < b < |r| ==> r[a] != r[b] by {
        var mid := AddEvent(prev, Some(last.event1));
        assert forall a, b :: 0 <= a < b < |mid| ==> mid[a] != mid[b];
      }
      r
  }

  /** The listed events are exactly those some record names, counting a second event only when set. */
  lemma {:induction false} EventListNames(students: seq<Record>, e: string)
    ensures e in EventList(students) <==> exists i :: 0 <= i < |students| && Names(students[i], e)
    decreases |students|
  {
    if |students| > 0 {
      EventListNames(students[..|students| - 1], e);
      EventListStep(students, e);
      SomeNamesSplit(students, e);
    }
  }

  /** Some record names `e`. */
  ghost predicate SomeNames(students: seq<Record>, e: string) {
    exists i :: 0 <= i < |students| && Names(students[i], e)
  }

  /** Some record names `e` exactly when an earlier one or the last one does. */
  lemma SomeNamesSplit(students: seq<Record>, e: string)
    requires |students| > 0
    ensures SomeNames(students, e) <==> SomeNames(students[..|students| - 1], e) || Names(students[|students| - 1], e)
  {
    var init := students[..|students| - 1];
    if exists i :: 0 <= i < |init| && Names(init[i], e) {
      var i :| 0 <= i < |init| && Names(init[i], e);
      assert students[i] == init[i];
    }
    if exists i :: 0 <= i < |students| && Names(students[i], e) {
      var i :| 0 <= i < |students| && Names(students[i], e);
      if i < |init| {
        assert init[i] == students[i];
      }
    }
  }

  /** One more record adds exactly the events it names. */
  lemma EventListStep(students: seq<Record>, e: string)
    requires |students| > 0
    ensures e in EventList(students) <==>
      e in EventList(students[..|students| - 1]) || Names(students[|students| - 1], e)
  {
  }

  /** The events one record names. */
  function RecordEvents(x: Record): (r: set<string>)
    ensures forall e :: e in r <==> Names(x, e)
  {
    (if x.event1 != "" then {x.event1} else {}) + (if Truthy(x.event2) then {x.event2.value} else {})
  }

  /** Every event some record of the leader names. */
  ghost function TeamEvents(s: Store, leaderId: string): set<string>
    decreases |s|
  {
    if |s| == 0 then {}
    else
      var last := s[|s| - 1];
      TeamEvents(s[..|s| - 1], leaderId) + (if last.leaderId == leaderId then RecordEvents(last) else {})
  }

  /** An event belongs to the team's events exactly when one of its records names it. */
  lemma {:induction false} TeamEventsNames(s: Store, leaderId: string, e: string)
    ensures e in TeamEvents(s, leaderId) <==> exists i :: 0 <= i < |s| && s[i].leaderId == leaderId && Names(s[i], e)
    decreases |s|
  {
    if |s| > 0 {
      var init := s[..|s| - 1];
      TeamEventsNames(init, leaderId, e);
      if exists i :: 0 <= i < |init| && init[i].leaderId == leaderId && Names(init[i], e) {
        var i :| 0 <= i < |init| && init[i].leaderId == leaderId && Names(init[i], e);
        assert s[i] == init[i];
      }
      if exists i :: 0 <= i < |s| && s[i].leaderId == leaderId && Names(s[i], e) {
        var i :| 0 <= i < |s| && s[i].leaderId == leaderId && Names(s[i], e);
        if i < |init| {
          assert init[i] == s[i];
        }
      }
    }
  }

  datatype Candidates = Candidates(totalStudents: nat, registeredEvents: seq<string>, data: seq<Record>)

  datatype Summary = Summary(totalStudents: nat, studentsRemaining: int, eventsRegistered: nat, registeredEvents: seq<string>)

  datatype ViewError = MissingUserId

  /**
   * `/getcandidates`: the leader's records, their number and their events. The data are
   * the leader's records in store order, each as often as the store holds it; the events
   * are described by `ViewsListTeamEvents`.
   */
  function GetCandidates(s: Store, userId: string): (r: Result<Candidates, ViewError>)
    ensures r.Failure? <==> userId == ""
    ensures r.Success? ==> r.value.totalStudents == CountFor(s, userId) == |r.value.data|
    ensures r.Success? ==> forall x :: x in r.value.data <==> x in s && x.leaderId == userId
    ensures r.Success? ==> Seqs.IsSubsequence(r.value.data, s)
    ensures r.Success? ==> forall x :: multiset(r.value.data)[x] == if x.leaderId == userId then multiset(s)[x] else 0
  {
    if userId == "" then Failure(MissingUserId)
    else
      var students := Seqs.Filter(s, OfLeader(userId));
      Seqs.FilterIsSubsequence(s, OfLeader(userId));
      Seqs.FilterMultiplicities(s, OfLeader(userId));
      Success(Candidates(|students|, EventList(students), students))
  }

  /** `/stats/:leaderId`: the record count, the places left under the cap, and the events. */
  function GetStats(s: Store, leaderId: string): (r: Summary)
    ensures r.totalStudents == CountFor(s, leaderId)
    ensures r.totalStudents + r.studentsRemaining == MaxStudents
    ensures r.eventsRegistered == |r.registeredEvents|
  {
    var students := Seqs.Filter(s, OfLeader(leaderId));
    var events := EventList(students);
    Summary(|students|, MaxStudents - |students|, |events|, events)
  }

  /** The events listed from a leader's records are exactly the team's events. */
  lemma TeamEventsListed(s: Store, leaderId: string, e: string)
    ensures e in EventList(Seqs.Filter(s, OfLeader(leaderId))) <==> e in TeamEvents(s, leaderId)
  {
    var students := Seqs.Filter(s, OfLeader(leaderId));
    EventListNames(students, e);
    TeamEventsNames(s, leaderId, e);
    if e in EventList(students) {
      var i :| 0 <= i < |students| && Names(students[i], e);
      var k :| 0 <= k < |s| && s[k] == students[i];
    }
    if e in TeamEvents(s, leaderId) {
      var k :| 0 <= k < |s| && s[k].leaderId == leaderId && Names(s[k], e);
      assert OfLeader(leaderId)(s[k]);
      var i :| 0 <= i < |students| && students[i] == s[k];
    }
  }

  /** Both views list each of the leader's events once, and nothing else. */
  lemma ViewsListTeamEvents(s: Store, leaderId: string)
    ensures forall e :: e in GetStats(s, leaderId).registeredEvents <==> e in TeamEvents(s, leaderId)
    ensures leaderId != "" ==> GetCandidates(s, leaderId).value.registeredEvents == GetStats(s, leaderId).registeredEvents
  {
    forall e ensures e in GetStats(s, leaderId).registeredEvents <==> e in TeamEvents(s, leaderId) {
      TeamEventsListed(s, leaderId, e);
    }
  }
}

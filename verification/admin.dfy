/**
 * The administrator's team views: a team by college, department and shift; removing one
 * student; and the registrations for one event grouped by leader.
 */
module Admin {
  import opened Wrappers
  import opened Records
  import opened Seqs

  datatype AdminError = AllFieldsRequired | NoTeamFound | StudentNotFound | EventNameRequired | NoRegistrations

  // ---------------------------------------------------------------------------
  // `/viewteam`

  /** The documents whose college, department and shift are `key`, in store order. */
  function Matching<D>(docs: seq<D>, fields: D -> (string, string, string), key: (string, string, string)): seq<D> {
    Filter(docs, (d: D) => fields(d) == key)
  }

  /** The matching documents are a selection: in store order, each as often as the store holds it. */
  lemma MatchingIsSelection<D(!new)>(docs: seq<D>, fields: D -> (string, string, string), key: (string, string, string))
    ensures |Matching(docs, fields, key)| == 0 <==> forall i :: 0 <= i < |docs| ==> fields(docs[i]) != key
    ensures forall i :: 0 <= i < |Matching(docs, fields, key)| ==>
      Matching(docs, fields, key)[i] in docs && fields(Matching(docs, fields, key)[i]) == key
    ensures forall i :: 0 <= i < |docs| && fields(docs[i]) == key ==> docs[i] in Matching(docs, fields, key)
    ensures IsSubsequence(Matching(docs, fields, key), docs)
    ensures forall x :: multiset(Matching(docs, fields, key))[x] == if fields(x) == key then multiset(docs)[x] else 0
  {
    var member := (d: D) => fields(d) == key;
    FilterEmpty(docs, member);
    FilterIsSubsequence(docs, member);
    FilterMultiplicities(docs, member);
  }

  /**
   * `/viewteam`: all three fields are required; the documents whose college, department and
   * shift equal them, in store order, or an error when there are none. `fields` reads the
   * three values off a document.
   */
  function ViewTeam<D(!new)>(docs: seq<D>, fields: D -> (string, string, string),
                             college: string, department: string, shift: string): (r: Result<seq<D>, AdminError>)
    ensures r == Failure(AllFieldsRequired) <==> college == "" || department == "" || shift == ""
    ensures r == Failure(NoTeamFound) <==> (college != "" && department != "" && shift != "" &&
      forall i :: 0 <= i < |docs| ==> fields(docs[i]) != (college, department, shift))
    ensures r.Success? <==> (college != "" && department != "" && shift != "" &&
      exists i :: 0 <= i < |docs| && fields(docs[i]) == (college, department, shift))
    ensures r.Success? ==> |r.value| > 0
    ensures r.Success? ==> forall i :: 0 <= i < |r.value| ==>
      r.value[i] in docs && fields(r.value[i]) == (college, department, shift)
    ensures r.Success? ==> forall i :: 0 <= i < |docs| && fields(docs[i]) == (college, department, shift) ==>
      docs[i] in r.value
    ensures r.Success? ==> IsSubsequence(r.value, docs)
    ensures r.Success? ==> forall x :: multiset(r.value)[x] ==
                                       if fields(x) == (college, department, shift) then multiset(docs)[x] else 0
  {
    if college == "" || department == "" || shift == "" then Failure(AllFieldsRequired)
    else
      var team := Matching(docs, fields, (college, department, shift));
      MatchingIsSelection(docs, fields, (college, department, shift));
      if |team| == 0 then Failure(NoTeamFound) else Success(team)
  }

  // ---------------------------------------------------------------------------
  // `/deleteteammember`

  /** The position of the first record with this key, `|s|` when there is none. */
  function FirstWithKey(s: Store, leaderId: string, registerNumber: string): (k: nat)
    ensures k <= |s|
    ensures k < |s| ==> s[k].leaderId == leaderId && s[k].registerNumber == registerNumber
    ensures forall j :: 0 <= j < k ==> !(s[j].leaderId == leaderId && s[j].registerNumber == registerNumber)
    decreases |s|
  {
    if |s| == 0 then 0
    else if s[0].leaderId == leaderId && s[0].registerNumber == registerNumber then 0
    else 1 + FirstWithKey(s[1..], leaderId, registerNumber)
  }

  /**
   * `/deleteteammember`: both fields required; the student must exist; `deleteOne` removes the
   * first match. What remains is stated by `DeleteMemberRemovesStudent` and `DeleteMemberKeepsValid`.
   */
  function DeleteMember(s: Store, userid: string, registerNumber: string): (r: Result<Store, AdminError>)
    ensures r == Failure(AllFieldsRequired) <==> userid == "" || registerNumber == ""
    ensures r == Failure(StudentNotFound) <==> userid != "" && registerNumber != "" && !HasKey(s, userid, registerNumber)
    ensures r.Success? <==> userid != "" && registerNumber != "" && HasKey(s, userid, registerNumber)
    ensures r.Success? ==> |r.value| + 1 == |s|
  {
    if userid == "" || registerNumber == "" then Failure(AllFieldsRequired)
    else
      var k := FirstWithKey(s, userid, registerNumber);
      if k == |s| then Failure(StudentNotFound)
      else Success(s[..k] + s[k + 1..])
  }

  /** Not this student of this leader. */
  function OtherThan(leaderId: string, registerNumber: string): Record -> bool {
    (x: Record) => !(x.leaderId == leaderId && x.registerNumber == registerNumber)
  }

  /** Removing the one element a test rejects is selecting by that test. */
  lemma {:induction false} RemoveAtIsFilter<T>(s: seq<T>, k: nat, p: T -> bool)
    requires k < |s| && !p(s[k])
    requires forall j :: 0 <= j < |s| && j != k ==> p(s[j])
    ensures s[..k] + s[k + 1..] == Filter(s, p)
    decreases |s|
  {
    var init, last := s[..|s| - 1], s[|s| - 1];
    assert s == init + [last];
    if k == |s| - 1 {
      FilterKeepsAll(init, p);
      assert s[..k] + s[k + 1..] == init;
    } else {
      RemoveAtIsFilter(init, k, p);
      assert s[..k] + s[k + 1..] == (init[..k] + init[k + 1..]) + [last];
    }
  }

  /** Removing one record from a store keeps its keys distinct. */
  lemma RemoveAtKeepsKeys(s: Store, k: nat)
    requires k < |s| && UniqueKeys(s)
    ensures UniqueKeys(s[..k] + s[k + 1..])
  {
    var r := s[..k] + s[k + 1..];
    forall i, j | 0 <= i < j < |r| ensures r[i].leaderId != r[j].leaderId || r[i].registerNumber != r[j].registerNumber {
      var i' := if i < k then i else i + 1;
      var j' := if j < k then j else j + 1;
      assert r[i] == s[i'] && r[j] == s[j'];
    }
  }

  /**
   * Under the unique index, removing a member removes exactly that student's record and
   * keeps every other record, in order.
   */
  lemma DeleteMemberRemovesStudent(s: Store, userid: string, registerNumber: string)
    requires UniqueKeys(s) && DeleteMember(s, userid, registerNumber).Success?
    ensures DeleteMember(s, userid, registerNumber).value == Filter(s, OtherThan(userid, registerNumber))
  {
    var k := FirstWithKey(s, userid, registerNumber);
    RemoveAtIsFilter(s, k, OtherThan(userid, registerNumber));
  }

  /** Removing the record with a key from a valid store keeps it valid and drops the key. */
  lemma RemoveKeyKeepsValid(s: Store, userid: string, registerNumber: string, k: nat)
    requires Valid(s) && k < |s| && s[k].leaderId == userid && s[k].registerNumber == registerNumber
    ensures !HasKey(s[..k] + s[k + 1..], userid, registerNumber)
    ensures Valid(s[..k] + s[k + 1..])
  {
    var p := OtherThan(userid, registerNumber);
    RemoveAtKeepsKeys(s, k);
    forall j | 0 <= j < |s| && j != k ensures p(s[j]) {
      assert s[j].leaderId != s[k].leaderId || s[j].registerNumber != s[k].registerNumber;
    }
    RemoveAtIsFilter(s, k, p);
    SelectionKeepsValid(s, p);
  }

  /** Removing a member keeps the store valid, and the student is gone. */
  lemma DeleteMemberKeepsValid(s: Store, userid: string, registerNumber: string)
    requires Valid(s)
    ensures DeleteMember(s, userid, registerNumber).Success? ==>
      !HasKey(DeleteMember(s, userid, registerNumber).value, userid, registerNumber)
    ensures DeleteMember(s, userid, registerNumber).Success? ==> Valid(DeleteMember(s, userid, registerNumber).value)
  {
    if DeleteMember(s, userid, registerNumber).Failure? {
      return;
    }
    var k := FirstWithKey(s, userid, registerNumber);
    assert DeleteMember(s, userid, registerNumber).value == s[..k] + s[k + 1..];
    RemoveKeyKeepsValid(s, userid, registerNumber, k);
  }

  /** A selection from a valid store whose keys stay distinct is valid. */
  lemma SelectionKeepsValid(s: Store, p: Record -> bool)
    requires Valid(s) && UniqueKeys(Filter(s, p))
    ensures Valid(Filter(s, p))
  {
    var r := Filter(s, p);
    forall i | 0 <= i < |r| ensures WellFormed(r[i]) && CountFor(r, r[i].leaderId) <= MaxStudents {
      FilterCountLe(s, p, OfLeader(r[i].leaderId));
    }
  }

  /** Dropping elements never selects more of them. */
  lemma FilterCountLe<T>(s: seq<T>, p: T -> bool, q: T -> bool)
    ensures |Filter(Filter(s, p), q)| <= |Filter(s, q)|
  {
    FilterMapCount(s, (x: T) => if p(x) then Some(x) else None, q);
    FilterAsFilterMap(s, p);
  }

  lemma {:induction false} FilterAsFilterMap<T>(s: seq<T>, p: T -> bool)
    ensures Filter(s, p) == FilterMap(s, (x: T) => if p(x) then Some(x) else None)
    decreases |s|
  {
    if |s| > 0 {
      FilterAsFilterMap(s[..|s| - 1], p);
    }
  }

  // ---------------------------------------------------------------------------
  // `/vieweventregs`

  /** What the view shows of one student. */
  datatype Member = Member(name: string, registerNumber: string, degree: Degree,
                           event1: string, event2: Option<string>)

  /** One leader's registrations for the event: the team's college and department, then its members. */
  datatype Group = Group(leaderId: string, college: string, department: Department, members: seq<Member>)

  function MemberOf(x: Record): Member {
    Member(x.name, x.registerNumber, x.degree, x.event1, x.event2)
  }

  /** The member entries of `leaderId`'s records, in order. */
  function MembersFor(leaderId: string): Record -> Option<Member> {
    (x: Record) => if x.leaderId == leaderId then Some(MemberOf(x)) else None
  }

  /** The position of the first record of this leader, `|s|` when there is none. */
  function FirstOf(s: Store, leaderId: string): (k: nat)
    ensures k <= |s|
    ensures k < |s| ==> s[k].leaderId == leaderId
    ensures forall j :: 0 <= j < k ==> s[j].leaderId != leaderId
    decreases |s|
  {
    if |s| == 0 then 0
    else
      var k := FirstOf(s[..|s| - 1], leaderId);
      if k < |s| - 1 then k else if s[|s| - 1].leaderId == leaderId then |s| - 1 else |s|
  }

  /** The position of this leader's group, `|groups|` when there is none yet. */
  function GroupIndex(groups: seq<Group>, leaderId: string): (k: nat)
    ensures k <= |groups|
    ensures k < |groups| ==> groups[k].leaderId == leaderId
    ensures forall j :: 0 <= j < k ==> groups[j].leaderId != leaderId
    decreases |groups|
  {
    if |groups| == 0 then 0
    else if groups[0].leaderId == leaderId then 0
    else 1 + GroupIndex(groups[1..], leaderId)
  }

  /** One turn of the grouping loop: open the leader's group on first sight, then push the member. */
  function AddRecord(groups: seq<Group>, x: Record): seq<Group> {
    var k := GroupIndex(groups, x.leaderId);
    if k == |groups| then groups + [Group(x.leaderId, x.college, x.department, [MemberOf(x)])]
    else groups[k := groups[k].(members := groups[k].members + [MemberOf(x)])]
  }

  /** The grouping loop over `records`, groups listed in the order their leaders first appear. */
  function GroupByLeader(records: Store): seq<Group>
    decreases |records|
  {
    if |records| == 0 then []
    else AddRecord(GroupByLeader(records[..|records| - 1]), records[|records| - 1])
  }

  /** No two groups share a leader. */
  predicate DistinctLeaders(groups: seq<Group>) {
    forall i, j :: 0 <= i < j < |groups| ==> groups[i].leaderId != groups[j].leaderId
  }

  /**
   * One turn of the loop pushes the member onto its leader's group, opening the group at
   * the end when the leader is new, and leaves every other group as it was.
   */
  lemma AddRecordShape(before: seq<Group>, x: Record)
    requires DistinctLeaders(before)
    ensures DistinctLeaders(AddRecord(before, x))
    ensures |AddRecord(before, x)| == |before| + (if GroupIndex(before, x.leaderId) == |before| then 1 else 0)
    ensures forall i :: 0 <= i < |before| ==>
      && AddRecord(before, x)[i].leaderId == before[i].leaderId
      && AddRecord(before, x)[i].college == before[i].college
      && AddRecord(before, x)[i].department == before[i].department
      && AddRecord(before, x)[i].members ==
           before[i].members + (if before[i].leaderId == x.leaderId then [MemberOf(x)] else [])
    ensures GroupIndex(before, x.leaderId) == |before| ==>
      && AddRecord(before, x)[|before|] == Group(x.leaderId, x.college, x.department, [MemberOf(x)])
      && forall i :: 0 <= i < |before| ==> before[i].leaderId != x.leaderId
  {
  }

  /** The grouping never holds two groups for one leader. */
  lemma {:induction false} GroupsDistinct(records: Store)
    ensures DistinctLeaders(GroupByLeader(records))
    decreases |records|
  {
    if |records| > 0 {
      GroupsDistinct(records[..|records| - 1]);
      AddRecordShape(GroupByLeader(records[..|records| - 1]), records[|records| - 1]);
    }
  }

  /** Every group belongs to a leader occurring in `records`. */
  lemma {:induction false} GroupsAreKnown(records: Store)
    ensures forall i :: 0 <= i < |GroupByLeader(records)| ==>
      FirstOf(records, GroupByLeader(records)[i].leaderId) < |records|
    decreases |records|
  {
    if |records| > 0 {
      var init, x := records[..|records| - 1], records[|records| - 1];
      GroupsAreKnown(init);
      GroupsDistinct(init);
      AddRecordShape(GroupByLeader(init), x);
    }
  }

  /** Every group holds at least one member. */
  lemma {:induction false} GroupsNonEmpty(records: Store)
    ensures forall i :: 0 <= i < |GroupByLeader(records)| ==> |GroupByLeader(records)[i].members| > 0
    decreases |records|
  {
    if |records| > 0 {
      var init, x := records[..|records| - 1], records[|records| - 1];
      GroupsNonEmpty(init);
      GroupsDistinct(init);
      AddRecordShape(GroupByLeader(init), x);
    }
  }

  /** Some group belongs to this leader. */
  predicate HasGroup(groups: seq<Group>, leaderId: string) {
    exists i :: 0 <= i < |groups| && groups[i].leaderId == leaderId
  }

  /** Every leader occurring in `records` has a group. */
  lemma {:induction false} GroupsCover(records: Store)
    ensures forall j :: 0 <= j < |records| ==> HasGroup(GroupByLeader(records), records[j].leaderId)
    decreases |records|
  {
    if |records| > 0 {
      var init, x := records[..|records| - 1], records[|records| - 1];
      GroupsCover(init);
      GroupsDistinct(init);
      var before := GroupByLeader(init);
      AddRecordShape(before, x);
      var after := GroupByLeader(records);
      assert after == AddRecord(before, x);
      forall j | 0 <= j < |records| ensures HasGroup(after, records[j].leaderId) {
        if j < |init| {
          assert init[j] == records[j];
          assert HasGroup(before, init[j].leaderId);
          var i :| 0 <= i < |before| && before[i].leaderId == init[j].leaderId;
          assert after[i].leaderId == records[j].leaderId;
        } else if GroupIndex(before, x.leaderId) < |before| {
          assert after[GroupIndex(before, x.leaderId)].leaderId == records[j].leaderId;
        } else {
          assert after[|before|].leaderId == records[j].leaderId;
        }
      }
    }
  }

  /** A leader without a group so far first appears with the record that opens it. */
  lemma NewLeaderFirstAppears(records: Store)
    requires |records| > 0
    requires GroupIndex(GroupByLeader(records[..|records| - 1]), records[|records| - 1].leaderId)
      == |GroupByLeader(records[..|records| - 1])|
    ensures FirstOf(records, records[|records| - 1].leaderId) == |records| - 1
  {
    var init, x := records[..|records| - 1], records[|records| - 1];
    var before := GroupByLeader(init);
    GroupsCover(init);
    forall j | 0 <= j < |init| ensures init[j].leaderId != x.leaderId {
      assert HasGroup(before, init[j].leaderId);
    }
  }

  /** Groups are listed in the order their leaders first appear in `records`. */
  lemma {:induction false} GroupsFollowFirstAppearance(records: Store)
    ensures forall i, j :: 0 <= i < j < |GroupByLeader(records)| ==>
      FirstOf(records, GroupByLeader(records)[i].leaderId) < FirstOf(records, GroupByLeader(records)[j].leaderId)
    decreases |records|
  {
    if |records| > 0 {
      var init, x := records[..|records| - 1], records[|records| - 1];
      GroupsFollowFirstAppearance(init);
      GroupsAreKnown(init);
      GroupsDistinct(init);
      var before := GroupByLeader(init);
      AddRecordShape(before, x);
      var after := GroupByLeader(records);
      assert after == AddRecord(before, x);
      forall i | 0 <= i < |before| ensures FirstOf(records, after[i].leaderId) == FirstOf(init, before[i].leaderId) {
      }
      if GroupIndex(before, x.leaderId) == |before| {
        NewLeaderFirstAppears(records);
      }
    }
  }

  /** A group's college and department are those of its leader's first record. */
  lemma {:induction false} GroupsTakeFirstRecord(records: Store)
    ensures forall i :: 0 <= i < |GroupByLeader(records)| ==>
      FirstOf(records, GroupByLeader(records)[i].leaderId) < |records|
    ensures forall i :: 0 <= i < |GroupByLeader(records)| ==>
      && GroupByLeader(records)[i].college == records[FirstOf(records, GroupByLeader(records)[i].leaderId)].college
      && GroupByLeader(records)[i].department == records[FirstOf(records, GroupByLeader(records)[i].leaderId)].department
    decreases |records|
  {
    GroupsAreKnown(records);
    if |records| > 0 {
      var init, x := records[..|records| - 1], records[|records| - 1];
      GroupsTakeFirstRecord(init);
      GroupsDistinct(init);
      var before := GroupByLeader(init);
      AddRecordShape(before, x);
      var after := GroupByLeader(records);
      assert after == AddRecord(before, x);
      forall i | 0 <= i < |before| ensures FirstOf(records, after[i].leaderId) == FirstOf(init, before[i].leaderId) {
      }
      forall i | 0 <= i < |before| ensures records[FirstOf(init, before[i].leaderId)] == init[FirstOf(init, before[i].leaderId)] {
      }
      if GroupIndex(before, x.leaderId) == |before| {
        NewLeaderFirstAppears(records);
      }
    }
  }

  /** A group's members are its leader's records, in order. */
  lemma {:induction false} GroupsHoldTheirMembers(records: Store)
    ensures forall i :: 0 <= i < |GroupByLeader(records)| ==>
      GroupByLeader(records)[i].members == FilterMap(records, MembersFor(GroupByLeader(records)[i].leaderId))
    decreases |records|
  {
    if |records| > 0 {
      var init, x := records[..|records| - 1], records[|records| - 1];
      GroupsHoldTheirMembers(init);
      GroupsDistinct(init);
      var before := GroupByLeader(init);
      AddRecordShape(before, x);
      var after := GroupByLeader(records);
      assert after == AddRecord(before, x);
      if GroupIndex(before, x.leaderId) == |before| {
        NewLeaderFirstAppears(records);
        FilterMapEmpty(init, MembersFor(x.leaderId));
      }
    }
  }

  /** Rewriting a sequence whose elements `f` all drops yields nothing. */
  lemma {:induction false} FilterMapEmpty<T, U>(s: seq<T>, f: T -> Option<U>)
    requires forall i :: 0 <= i < |s| ==> f(s[i]).None?
    ensures FilterMap(s, f) == []
    decreases |s|
  {
    if |s| > 0 {
      FilterMapEmpty(s[..|s| - 1], f);
    }
  }

  /**
   * `/vieweventregs`: the event name is required; the records naming the event as first or
   * second event, grouped by leader, or an error when there are none.
   */
  function ViewEventRegs(s: Store, eventName: string): (r: Result<seq<Group>, AdminError>)
    ensures r == Failure(EventNameRequired) <==> eventName == ""
    ensures r == Failure(NoRegistrations) <==> eventName != "" && forall i :: 0 <= i < |s| ==> !s[i].References(eventName)
    ensures r.Success? <==> eventName != "" && exists i :: 0 <= i < |s| && s[i].References(eventName)
  {
    if eventName == "" then Failure(EventNameRequired)
    else
      var records := Filter(s, (x: Record) => x.References(eventName));
      FilterEmpty(s, (x: Record) => x.References(eventName));
      if |records| == 0 then Failure(NoRegistrations) else Success(GroupByLeader(records))
  }

  /** The member entries of `leaderId`'s records that name `eventName`, in store order. */
  function EventMembersFor(eventName: string, leaderId: string): Record -> Option<Member> {
    (x: Record) => if x.leaderId == leaderId && x.References(eventName) then Some(MemberOf(x)) else None
  }

  /** A leader's members among the records naming the event are its records naming the event. */
  lemma {:induction false} EventMembersAreSelected(s: Store, eventName: string, leaderId: string)
    ensures FilterMap(Filter(s, (x: Record) => x.References(eventName)), MembersFor(leaderId))
      == FilterMap(s, EventMembersFor(eventName, leaderId))
    decreases |s|
  {
    if |s| > 0 {
      var p := (x: Record) => x.References(eventName);
      var init, x := s[..|s| - 1], s[|s| - 1];
      EventMembersAreSelected(init, eventName, leaderId);
      var tail := if p(x) then [x] else [];
      assert Filter(s, p) == Filter(init, p) + tail;
      FilterMapAppend(Filter(init, p), tail, MembersFor(leaderId));
      assert FilterMap(tail, MembersFor(leaderId)) == (match EventMembersFor(eventName, leaderId)(x) case Some(y) => [y] case None => []) by {
        if p(x) {
          assert tail[..0] == [];
        }
      }
    }
  }

  /**
   * A successful view lists each leader with a record naming the event, exactly once, and
   * no other leader; every group has at least one member.
   */
  lemma ViewEventRegsLeaders(s: Store, eventName: string)
    requires ViewEventRegs(s, eventName).Success?
    ensures |ViewEventRegs(s, eventName).value| > 0
    ensures DistinctLeaders(ViewEventRegs(s, eventName).value)
    ensures forall j :: 0 <= j < |s| && s[j].References(eventName) ==>
      HasGroup(ViewEventRegs(s, eventName).value, s[j].leaderId)
    ensures forall i :: 0 <= i < |ViewEventRegs(s, eventName).value| ==>
      exists j :: 0 <= j < |s| && s[j].leaderId == ViewEventRegs(s, eventName).value[i].leaderId && s[j].References(eventName)
    ensures forall i :: 0 <= i < |ViewEventRegs(s, eventName).value| ==>
      |ViewEventRegs(s, eventName).value[i].members| > 0
  {
    var records := Filter(s, (x: Record) => x.References(eventName));
    var groups := GroupByLeader(records);
    assert ViewEventRegs(s, eventName).value == groups;
    GroupsDistinct(records);
    GroupsCover(records);
    GroupsNonEmpty(records);
    GroupsAreKnown(records);
    forall i | 0 <= i < |groups|
      ensures exists j :: 0 <= j < |s| && s[j].leaderId == groups[i].leaderId && s[j].References(eventName)
    {
      var k := FirstOf(records, groups[i].leaderId);
      assert records[k] in s;
      var j :| 0 <= j < |s| && s[j] == records[k];
    }
    assert HasGroup(groups, records[0].leaderId);
    forall j | 0 <= j < |s| && s[j].References(eventName) ensures HasGroup(groups, s[j].leaderId) {
      assert s[j] in records;
      var k :| 0 <= k < |records| && records[k] == s[j];
    }
  }

  /** Under each leader a successful view lists that leader's records naming the event, in store order. */
  lemma ViewEventRegsMembers(s: Store, eventName: string)
    requires ViewEventRegs(s, eventName).Success?
    ensures forall i :: 0 <= i < |ViewEventRegs(s, eventName).value| ==>
      ViewEventRegs(s, eventName).value[i].members ==
        FilterMap(s, EventMembersFor(eventName, ViewEventRegs(s, eventName).value[i].leaderId))
  {
    var records := Filter(s, (x: Record) => x.References(eventName));
    var groups := GroupByLeader(records);
    assert ViewEventRegs(s, eventName).value == groups;
    GroupsHoldTheirMembers(records);
    forall i | 0 <= i < |groups|
      ensures groups[i].members == FilterMap(s, EventMembersFor(eventName, groups[i].leaderId))
    {
      EventMembersAreSelected(s, eventName, groups[i].leaderId);
    }
  }
}

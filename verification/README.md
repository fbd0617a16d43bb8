# Team registration for the college fest, in Dafny

This project models the constraint engine behind team registration in the fest's backend, and proves properties about it. A team leader registers a team of students for one of eight events. Each event runs in one time window, or in both windows for Bid Mayhem. The store keeps one participant record per student per leader. A record carries the student's first event and slot, and optionally a second event in the other window.

The model covers:

- `/registerteam`. This is split into three parts:
  - **Engine**: every check the route runs before its first write, in the route's order, and the write plan it derives. The event lookup is the corrected one of the first finding below.
  - **Batch**: the write loop, its log and the compensating rollback.
  - **Team**: the route end to end.
- The participant schema, with its unique `(leaderId, registerNumber)` index (**Records**), and the event/slot table (**Catalog**).
- `/deleteteam/:leaderId/:event` (**Detach**).
- The distinct-event listing of `/getcandidates` and `/stats/:leaderId` (**Stats**).
- The string validators (**Validators**, built on **JsStrings**).
- The admin views `/viewteam`, `/deleteteammember` and `/vieweventregs` (**Admin**).

The store is a `seq<Record>` in insertion order. A document's `_id` is modelled by its key `(leaderId, registerNumber)`, which the unique index makes an identity. A missing request field is the empty string, because JavaScript's `!x` treats `""` and `undefined` alike. A write that throws is named by a parameter `failAt: Option<nat>`, the index of the failing write. On top of that, a create also fails when the unique index or the schema's enums refuse it.

The invariant `Records.Valid` holds for every store reachable through the routes:

- keys are unique;
- every record is well formed, meaning its first event sits in its table slot, and a second event sits in the other single slot;
- no leader has more than 15 records.

Registration, the rollback, the team delete and the admin member delete are all proved to preserve it.

## Model

| member | source | states |
|---|---|---|
| Records.Cast | models/EventRegistration.js:3-28 | a new document is accepted exactly when every required path is non-empty and department and degree are in their enums; the stored record has the document's fields, the department and degree its strings name, no second event, and the food preference parsed |
| Records.FoodPreferenceDroppedAsWritten | models/EventRegistration.js:3-28 | as written, the schema has no food-preference path: whenever the corrected schema stores a preference, the as-written schema stores none |
| Records.Insert | models/EventRegistration.js:36-39 | a create succeeds exactly when no record has the same (leaderId, registerNumber) key and the document validates; it then appends the cast record |
| Records.SetSecond | routes/authRoutes.js:410-412 | `$set: { event2, slot2 }` on the record with the given key: the length is kept, every other record is unchanged, and the matching record differs only in event2/slot2, which take the new values |
| Records.WellFormedEventsDiffer | routes/authRoutes.js:369-395 | in a well-formed record, a second event differs from the first, and a record whose first event takes both slots (Bid Mayhem) has no second event |
| Catalog.SlotOfTable | routes/authRoutes.js:268-272 | the slot table: exactly the eight listed events have a slot; Fixathon, Mute Masters and Treasure Titans are in slot 1; QRush, VisionX, ThinkSync and Crazy Sell are in slot 2; Bid Mayhem is in both |
| Catalog.InheritedNamePassesGuard | routes/authRoutes.js:273-276 | as written, the lookup `EVENT_SLOT_MAP[event]` is truthy for "constructor", which is not an event, so the guard lets it through |
| Catalog.SlotOfAcceptsOnlyEvents | routes/authRoutes.js:273-276 | the corrected lookup accepts exactly the eight events; the as-written guard differs from it exactly on the inherited Object.prototype names |
| Engine.FindLeader | routes/authRoutes.js:255-258 | no leader is found iff no user has the id; otherwise the first user with that id is returned |
| Engine.DupInTeamDetectsDuplicates | routes/authRoutes.js:295-302 | the duplicate filter `indexOf(r) !== i` is empty exactly when the upper-cased register numbers are pairwise distinct |
| Engine.ExistingRegsMatchStore | routes/authRoutes.js:305-309 | a batch register number is in the existing set exactly when the leader already has a record with that key |
| Engine.FieldErrorAccepts | routes/authRoutes.js:314-356 | a participant passes the field checks iff name, register number, mobile and degree are present, the mobile with spaces and hyphens removed is 10 digits starting 6-9, the degree is ug/pg, and (for a student with no record yet) the food preference is vegetarian/non-vegetarian |
| Engine.NewStudentFoodDroppedAsWritten | routes/authRoutes.js:340-354 | a new student whose fields the route accepted always sends a valid food preference, which the as-written schema drops on create and the corrected schema stores |
| Engine.MobileChecksAgree | routes/authRoutes.js:326-327 | on a number typed with digits, spaces and hyphens, the route's space-and-hyphen strip and the signup validator's non-digit strip accept exactly the same numbers |
| Engine.FirstFieldErrorSpec | routes/authRoutes.js:314-356 | the loop reports no error iff every participant passes; otherwise it reports the error of the first participant that fails |
| Engine.NewStudentCountIsNewCount | routes/authRoutes.js:358-360 | `newStudentCount` is the number of batch entries whose key the leader does not hold yet |
| Engine.ConflictOfAccepts | routes/authRoutes.js:370-395 | an existing record is free for the event iff it is not in Bid Mayhem, has no first event when the event takes both slots, has no second event, and its first slot differs from the event's slot |
| Engine.FirstConflictSpec | routes/authRoutes.js:369-395 | the conflict loop reports nothing iff every existing record is free; otherwise it reports the first record's conflict |
| Engine.VetCapacityRules | routes/authRoutes.js:358-395 | the batch is rejected for the cap exactly when existing plus new students exceed 15; then for a conflict exactly when the cap holds and some existing record conflicts (the first one's); otherwise the plan updates each existing student and creates each new one |
| Engine.VetFieldsRules | routes/authRoutes.js:311-356 | a field error is reported iff some participant fails the field checks, and then it is the first failure; when all pass, the decision continues to the cap and conflict checks |
| Engine.VetTeamRules | routes/authRoutes.js:290-302 | the batch is rejected as duplicate exactly when two participants share an upper-cased register number; otherwise the field checks decide |
| Engine.Gate | routes/authRoutes.js:247-288 | the gate passes exactly when input is present, the leader exists with college and department, the event is in the table, and the leader has no record naming the event; it then yields the leader and the event's slot |
| Engine.GateLeaderErrors | routes/authRoutes.js:247-265 | missing input, unknown leader and incomplete profile are each reported exactly in their own case, in the route's order |
| Engine.GateEventErrors | routes/authRoutes.js:267-288 | an invalid event and an event already taken by the leader are each reported exactly in their own case |
| Engine.FindReferencing | routes/authRoutes.js:279-282 | the lookup finds a record iff some record of the leader names the event as its first or second event |
| Engine.DecideGateErrors | routes/authRoutes.js:247-288 | the decision fails with a gate error iff the gate is closed |
| Engine.DecideTeamErrors | routes/authRoutes.js:290-395 | past the gate: duplicate iff register numbers repeat; field error iff distinct and some participant fails (the first); cap error iff the earlier checks pass and 15 is exceeded; conflict iff within the cap and some existing record conflicts (the first) |
| Engine.DecideAcceptsAdmissible | routes/authRoutes.js:247-395 | the decision succeeds iff every check passes, and then yields a plan with one update per existing student and one create per new student; the decision never reports a write failure |
| Batch.RollbackRestores | routes/authRoutes.js:432-442 | after a partial batch, deleting the created ids and restoring each snapshot gives back the store as it was before the first write |
| Batch.ApplySound | routes/authRoutes.js:398-447 | the writes commit iff no write throws; a committed batch has applied every action; an aborted batch is undone by the rollback, leaving the original store |
| Batch.CreatedDistinct | routes/authRoutes.js:415-429 | when the plan writes each student once, the documents it creates carry pairwise distinct register numbers, so no create collides with another on the unique index |
| Team.RegisterTeam | routes/authRoutes.js:240-460 | a rejection other than a write failure leaves the store untouched |
| Team.RegisterRejectsAsDecided | routes/authRoutes.js:247-395 | a rejection before any write happens exactly when the request is not admissible, and it reports the decision's error |
| Team.RegisterWrites | routes/authRoutes.js:397-454 | an admissible request registers iff every write lands; then each existing student gains the event as second event, a record is appended per new student, and the reply counts `created` as the new students and `created + updated` as the team size; otherwise the store is restored and the reply is a write failure |
| Team.RegisterSucceeds | routes/authRoutes.js:449-454 | an admissible request whose leader's department is in the schema's enum registers when no write throws |
| Team.RegisteredCount | routes/authRoutes.js:358-367 | after a registration, the leader's record count grows by exactly the number of new students, and other leaders' counts are unchanged |
| Team.RegisteredCapped | routes/authRoutes.js:358-367 | a registration within the cap keeps every leader at 15 records or fewer |
| Team.RegisterKeepsValid | routes/authRoutes.js:240-460 | every outcome of the route (rejection, commit or rolled-back failure) keeps the store valid: unique keys, well-formed records, at most 15 per leader |
| Team.RegisteredTakesEvent | routes/authRoutes.js:278-288 | after a registration the leader's team holds the event |
| Team.RegisterTwiceRejected | routes/authRoutes.js:278-288 | repeating a registration that succeeded is rejected as already taken, and leaves the store alone |
| Detach.DetachTeam | routes/authRoutes.js:501-547 | the route never grows the store |
| Detach.DetachNotFound | routes/authRoutes.js:505-510 | the route reports not found iff no record of the leader names the event |
| Detach.DetachIsLeave | routes/authRoutes.js:512-535 | the clearing update followed by the shifting loop equals a single pass over the store: the team's records drop the event, promoting their second event or disappearing when there is none |
| Detach.DetachCountsReferences | routes/authRoutes.js:512-541 | the affected count equals the number of the leader's records that name the event |
| Detach.DetachLeavesEvent | routes/authRoutes.js:501-547 | afterwards no record of the leader names the event |
| Detach.DetachRemovesEvent | routes/authRoutes.js:501-547 | afterwards the team's set of events is its former set minus the event |
| Detach.DetachKeepsOtherTeams | routes/authRoutes.js:501-547 | other leaders' records are unchanged, in order |
| Detach.DetachKeepsValid | routes/authRoutes.js:501-547 | the route keeps the store valid |
| Detach.LeaveKeepsValid | routes/authRoutes.js:512-535 | dropping the event from every record of the team, with promotion or deletion, keeps unique keys, well-formed records and the cap of 15 |
| Stats.AddEvent | routes/authRoutes.js:477-481 | adding a truthy event to the set keeps the old elements and adds exactly that event |
| Stats.EventList | routes/authRoutes.js:477-481 | the listed events are pairwise distinct |
| Stats.EventListNames | routes/authRoutes.js:477-481 | an event is listed iff some record names it as a truthy first or second event |
| Stats.GetCandidates | routes/authRoutes.js:468-494 | a missing user id is the only failure; the data are the leader's records in store order (a subsequence of the store), each as often as the store holds it, and nothing else; totalStudents is their number |
| Stats.GetStats | routes/authRoutes.js:553-572 | totalStudents is the leader's record count, studentsRemaining is the rest of the cap of 15, and eventsRegistered is the number of listed events |
| Stats.ViewsListTeamEvents | routes/authRoutes.js:558-571 | both views list exactly the team's events, and list them identically |
| Validators.ValidatePassword | routes/simple-validators.js:6-36 | null iff 8-128 UTF-16 code units, no whitespace, and an upper-case letter, a lower-case letter, a digit and a special character; each of the seven failures is reported exactly when every earlier check passes and its own fails |
| Validators.MatchesEmail | routes/simple-validators.js:44 | the regex test succeeds iff the string splits as local@domain.tld with the regex's character classes and a top-level part of at least 2 letters |
| Validators.ValidateEmail | routes/simple-validators.js:39-51 | required iff empty; invalid iff non-empty and the trimmed address does not match; otherwise null |
| Validators.ValidateMobileNumber | routes/simple-validators.js:54-67 | required iff empty; invalid iff non-empty and the digits of the input do not form 10 digits starting 6-9; null otherwise |
| Validators.ValidateName | routes/simple-validators.js:70-86 | null iff the trimmed name has 2-100 UTF-16 code units, all letters, whitespace, dots, hyphens or apostrophes; too short iff under 2 code units, too long iff over 100; the character error iff the length is within bounds and some character is outside that class |
| Validators.ValidateField | routes/simple-validators.js:89-99 | null iff the trimmed value has 2-100 UTF-16 code units; the two messages carry the field name and are reported exactly in their cases |
| Validators.ValidNameIsValidField | routes/simple-validators.js:70-99 | every valid name is also a valid generic field |
| JsStrings.Utf16LengthCountsAstral | routes/simple-validators.js:7-11 | `.length` counts UTF-16 code units: the number of characters plus one for each character above U+FFFF |
| Validators.AstralFieldIsLongEnough | routes/simple-validators.js:89-99 | any single character above U+FFFF (an emoji) is two code units long, so the generic field check accepts it under any field name |
| Validators.AstralNameIsInvalid | routes/simple-validators.js:70-86 | any single character above U+FFFF passes the name length checks and is refused for its characters |
| Validators.AstralPasswordIsLongEnough | routes/simple-validators.js:6-36 | `Aa1!` followed by any two characters above U+FFFF is six characters but 8 code units, the minimum length, and is accepted |
| Admin.ViewTeam | routes/adminRoutes.js:80-90 | all fields are required; no team iff no document matches college, department and shift; success iff all fields are given and some document matches; the result is non-empty and holds exactly the matching documents, in store order and as often as the store holds each |
| Admin.DeleteMember | routes/adminRoutes.js:104-118 | all fields are required; not found iff there is no record with the key; success iff both fields are given and the key is present, and then exactly one record is removed |
| Admin.DeleteMemberRemovesStudent | routes/adminRoutes.js:110-116 | with unique keys, the store after the delete is the store without the student's record, order kept |
| Admin.DeleteMemberKeepsValid | routes/adminRoutes.js:110-116 | the delete removes the key from the store and keeps the store valid |
| Admin.ViewEventRegs | routes/adminRoutes.js:131-143 | the event name is required; no registrations iff no record names the event; success iff the name is given and some record names the event |
| Admin.GroupsDistinct | routes/adminRoutes.js:146-165 | grouping yields at most one group per leader |
| Admin.GroupsCover | routes/adminRoutes.js:146-165 | every record's leader has a group |
| Admin.GroupsFollowFirstAppearance | routes/adminRoutes.js:146-169 | groups are ordered by their leader's first record |
| Admin.GroupsTakeFirstRecord | routes/adminRoutes.js:149-156 | a group's college and department come from its leader's first record |
| Admin.GroupsHoldTheirMembers | routes/adminRoutes.js:158-164 | a group's members are its leader's records projected to name, register number, degree and events, in store order |
| Admin.ViewEventRegsLeaders | routes/adminRoutes.js:137-169 | a successful view is a non-empty list of groups with distinct leaders; every leader with a record naming the event has a group, every group's leader has such a record, and every group has at least one member |
| Admin.ViewEventRegsMembers | routes/adminRoutes.js:137-169 | each group lists exactly its leader's records that name the event, in store order |

## Left out

- Password hashing, JWT issuing, leader-id generation, college CRUD and server wiring are outside the engine. The same goes for the user, college and legacy event schemas beyond the two leader fields the route reads.
- HTTP status codes and message texts: errors are the constructors of `Engine.RegError`, `Admin.AdminError` and `Stats.ViewError`.
- Concurrency: each route runs against one store value. A registration racing another is not modelled, except through the unique index refusing a create.
- Which write throws is a parameter (`failAt`), not a model of the database. A rollback write that itself fails is not modelled.
- MongoDB query semantics (`$in`, `$or`, `find` order) are modelled as filters over the store in insertion order.
- Engine.Gate: the route model looks the event up with the corrected table lookup of the first finding. Registration and the theorems about it (`Engine.DecideAcceptsAdmissible`, `Team.RegisterKeepsValid`) hold for that lookup. As written, an inherited name such as "constructor" passes the guard and would be written as a second event with a slot outside the schema's enum, because `findByIdAndUpdate` runs no validators; the model does not follow that path.
- Engine.Decide: request values are strings. A number or object sent as `registerNumber` or `mobile` makes `toUpperCase` or `replace` throw before any write. A failing read (`User.findOne`, `find`, `countDocuments`) also ends the request. Both are answered by the route's outer catch with a server error, and neither is modelled.
- Detach.DetachTeam: its writes never fail in the model. The route has no rollback, so a failing `updateMany`, `findByIdAndUpdate` or `findByIdAndDelete` would leave the team partly detached; that outcome is not modelled.
- JsStrings.ToUpper: upper-cases ASCII letters only. JavaScript's `toUpperCase` also maps other Unicode letters.
- The admin routes query the legacy event model, which lacks `leaderId`, `college`, `department` and `shift`, and that router is not mounted by the server. The admin views are therefore modelled over participant records. `Admin.ViewTeam` is generic over a projection to `(college, department, shift)`.
- Admin.GroupsFollowFirstAppearance: states insertion order of the grouping object. JavaScript orders integer-like keys first, and names such as "constructor" would read an inherited property. So this holds only for leader ids that are neither.
- Deleting a leader's whole team across all events: no route does it, so it is not modelled.
- Detach.WriteFor: a record whose second event is set but whose second slot is null is treated as having no second event. The route would move a null slot into `slot1`. Well-formed stores never hold such a record.
- Stats.EventList: states that the list is duplicate-free and names exactly the team's events. The first-appearance order of the `Set` is not stated.
- Stats.GetStats: `studentsRemaining` is an `int`. It goes negative only for a store past the cap, which `Records.Valid` excludes.

## Findings

| source | as written | input that shows it | evidently intended | confidence | as-written member | corrected member |
|---|---|---|---|---|---|---|
| routes/authRoutes.js:268-276 | `EVENT_SLOT_MAP[event]` on a plain object literal also reads inherited `Object.prototype` properties, which are truthy | event = "constructor" passes the "Invalid event selected" guard, with a function as its slot | only the eight listed events have a slot | high, not executed | Catalog.InheritedNamePassesGuard | Catalog.SlotOfAcceptsOnlyEvents |
| models/EventRegistration.js:3-28, routes/authRoutes.js:415-429 | the route passes `foodPreference` to `create`, but the schema declares no such path, so strict mode discards it | a new student with foodPreference "vegetarian" is stored with no food preference | the checked preference is stored on the new record ("saved once, here only") | high, not executed | Records.FoodPreferenceDroppedAsWritten | Records.Cast |

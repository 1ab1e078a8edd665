# A verified model of the SCIM provisioning server

The server keeps users, groups and memberships in three tables and changes them on behalf of an identity
provider (RFC 7644). This project models its provisioning store, its two PATCH compilers, its text
recognisers and paging, and the event log behind the demo page, and proves what holds for every input,
every interleaving and every reachable state.

- `Tables.dfy`: the tables, their constraints and the atomic database calls. `ScimErrors.dfy`,
  `Resources.dfy`: the exception filter, the request bodies and the mappers. `Json.dfy`: patch values and the
  JavaScript coercions.
- `UserPatch.dfy`, `GroupPatch.dfy`: the compilers, as written (methods with loops over a mutable record) and
  as functions, compared with the same operations carried out in order. `RfcPatch.dfy`, `RfcUserPatch.dfy`:
  section 3.5.2 of RFC 7644 for the members of a group and for the stored attributes of a user, on the path
  grammar and the value readers of `ScimPath.dfy`; the second also where the user patch agrees with it.
  `RfcForms.dfy`, `RfcLists.dfy`, `RfcExamples.dfy`: where the group patch does, by operation and by list, and
  where not. `UserAttributes.dfy`, `GroupAttributes.dfy`: what a PATCH gives each column and names as members,
  read from its operations. `GroupStore.dfy`: what the group transactions do to the tables.
- `Api.dfy`: the serial specification of every request, in terms of tables and replies; the group writes run
  no database call in it. `SerialCalls.dfy`: the calls of the group service proved against it, and what it
  keeps. `Bodies.dfy`: what a body stores and an answer shows, field by field, and which status each request
  gets. `Services.dfy`: the services as classes over the database, each method proved against it.
  `Concurrency.dfy`: any number of requests in flight, one database call a step. `Steps.dfy`, `Runs.dfy`,
  `Linearization.dfy`: every run refines a serial one. `Histories.dfy`, `Races.dfy`, `LoneRequests.dfy`: the
  log of such a run, the race of a patch with a deletion, and the calls of one request.
- `Listing.dfy`, `ListAnswers.dfy`, `FilterUtil.dfy`, `MemberPath.dfy`: listings and the two regular
  expressions. `Walks.dfy`, `ListedWalks.dfy`: page walks while other requests run, on lists and on listings.
  `RoundTrips.dfy`: representations sent back to the server, and PATCH requests from operations to tables.
- `EventsStore.dfy`, `ActivityLog.dfy`, `Replication.dfy`: the capped buffer, the page's log and the protocol
  between them.

## Assumptions

- Every Prisma call and every `$transaction` is atomic. `createdAt` is strictly increasing, so a table's
  `order` lists its ids by creation. An id given to a row is never given again.
- Nested member rows are inserted one at a time in list order, and the unique index is checked before the
  foreign keys. This decides only which of 409 and 400 a list with several faults gets.
- An `undefined` field of an update leaves its column alone; `null` stores NULL. Optional DTO fields may be
  `null`, because `IsOptional` skips the other validators then.
- A name or email of a user patch that is neither a string nor null, or a member id that is not a string,
  is rejected by Prisma in place of the write: after the pre-check, which answers 404 for a missing
  resource, the request ends in status 500 and no table has changed. A value on which the compilers throw
  (a first email `null`, members that cannot be iterated, an object with its own `toString`) makes
  `Compile` return `None`; the request then ends in status 500 before any database call.
- The member rows of a group are read in the order of their insertion, although `WITH_MEMBERS`
  (src/scim/groups/groups.service.ts:7) asks for no order.
- PostgreSQL can store every string. A name with the character U+0000, or one too long for its unique
  index, is refused by the database and ends in status 500; such strings are assumed not to be sent.
- RFC 7644 leaves some operations open. For groups, `RfcPatch.dfy` takes a bare list in an add without a
  path, and a listed value in a remove of `members`, for the members meant; it takes `value` of a member
  for immutable (section 8.7.1 of RFC 7643); an add at a selected member leaves the members alone; a
  replacement of selected members needs a match; and operations on other attributes count as refused when
  the source refuses them.
- For users, `RfcUserPatch.dfy` compares the six attributes that are stored, emails by their addresses. It
  takes `null` for unassigning (section 2.5 of RFC 7643) and `userName` for required; a part of a simple
  attribute, or a filter on one, is refused, and so are `emails.value`, all addresses at once, and an add
  of `null` to the emails; an add or
  replacement at selected emails needs a match, and an entry without an address leaves theirs; the one
  address that a row shows is the primary one, as it is rendered. Operations on other attributes change
  nothing.
- What a filter selects is left open unless it is `value eq "..."` or, for emails, `primary eq true`; the
  theorems hold for every choice.
- bcrypt's result is a parameter of the request. Numbers in JSON are given by their printed form and
  whether they are zero. Only ASCII letters have two cases in the compared words.

## What the code does that its comments or RFC 7644 do not say

- A group PATCH that adds a member and removes it again keeps the member, because all removes run before
  all adds (`GroupPatch.AddThenRemoveKeeps`). `GroupPatch.BatchMeansInOrder` gives the exact condition.
- Replacing `members`, removing `members` without a value, replacing a selected member and writing the
  attribute name in other letters do nothing; removing a sub-attribute of a member removes the member; an
  add without a path whose value is an object of attributes is refused. Section 3.5.2 of RFC 7644 gives all
  of these another meaning. `RfcForms.OpMeansRfc` says exactly which operations agree with it;
  `RfcLists.BatchMeansRfc` says which lists, for every list that the server carries out and for the refused
  ones whose replacements select by id; `RfcExamples.ReplaceMembersIgnored` and the lemmas after it show each
  failure for every group.
- A user PATCH ignores removals, stores `null` for a text attribute under its path, and for `userName` and
  `externalId` in an object, as the text "null", takes any non-empty text for `active` as true (so "False" activates), keeps
  the first of several emails, and sets the primary email of a user without one where section 3.5.2 finds no
  target. `RfcUserPatch.OpMeansRfc` says exactly which operations agree with the section, for users with
  and without an address; `RfcUserPatch.RemovalIgnored` and the lemmas after it show the failures.
- An email entry without a `value` after an email in the same PATCH loses that email
  (`UserPatch.BatchMeansInOrder`, `UserPatch.LostEmailExample`).
- A group PATCH that only adds or removes members and loses a race with the deletion of its group answers
  400 when it adds somebody, although the exception filter's comment wants 404 for a missing resource
  (`Steps.PatchLosesToDelete`, `Races.PatchRaceFromStart`).
- A walk through the pages passes over a row exactly when a row it has already shown is deleted while one
  is still to come (`ListedWalks.AnyWalk`, `ListedWalks.DeletionSkipsUser`).

## Model

| member | source | states |
|---|---|---|
| `Linearization.Refinement` | src/scim/users/users.service.ts:34-84 | for every interleaving of every number of requests there is a serial run, in the order of the effects, with the same final tables; a finished user request, group creation or group deletion has exactly the serial status, scimType and resource; a group replace or patch has it too, or is a patch answering 400 where the serial reply is 404, or shows the group, or 404, as it stood at its own re-read later in the run |
| `Linearization.AnswerOfGroupWrite` | src/scim/groups/groups.service.ts:56-114 | that answer, for each finished group replace or patch: when it is not the serial reply or the lost race, some event of the run is its re-read, it had taken effect before, and the answer is the whole representation of the group in the tables of that moment, or 404 when the group is absent from them |
| `Linearization.ReadBackShows` | src/scim/groups/groups.service.ts:30-34 | what a re-read answers is the row and the members with their names in the tables of that moment, or 404 |
| `Steps.GroupWriteEnds` | src/scim/groups/groups.service.ts:56-114 | a group write that ends with its transaction has the serial reply or lost the race, and if it goes on, a re-read at once shows the serial reply |
| `Histories.EffectsOnce` | src/scim/groups/groups.service.ts:36-119 | every operation of the serial run belongs to a request that arrived, no request but a wipe takes effect twice and every finished one took effect; a finished wipe has each of its three deletes there once, in order |
| `Histories.WipeInStages` | src/demo/demo.controller.ts:94-101 | each delete that a wipe has made is in the serial run once, in order, however far the wipe has come |
| `Histories.RealTimeOrder` | src/scim/groups/groups.service.ts:36-119 | the serial order puts a request that finished before another arrived first |
| `Linearization.ReachableSafe` | prisma/schema.prisma:12-51 | every reachable state has unique user names, display names and pairs and no dangling membership, wipes included; well-typed requests end in 200, 201, 204, 400, 404 or 409 |
| `Steps.WriteStepLinearizes` | src/scim/common/scim-exception.filter.ts:37-95 | the write of a request whose check has passed does and answers what the whole request would now: P2002 and P2025 look like the failed pre-check |
| `Steps.WriteStepOfGroup` | src/scim/groups/groups.service.ts:56-114 | the transaction of a group replace or patch has the effect of the whole request at that moment, also when the group is gone |
| `Steps.UninterruptedGroupWrite` | src/scim/groups/groups.service.ts:56-114 | with nothing between its transaction and its re-read, a group replace or patch answers exactly as the serial run |
| `Steps.CheckStep` | src/scim/users/users.service.ts:28-37 | a failed pre-check answers as the serial request does, and changes nothing |
| `Steps.PatchLosesToDelete` | src/scim/groups/groups.service.ts:76-114 | a patch whose group vanished answers 400 instead of 404 exactly when it adds members and changes no attribute |
| `Races.PatchRaceReachable` | src/scim/groups/groups.service.ts:76-119 | that race can be reached from any state with such a patch past its check and a deletion in flight |
| `Races.PatchRaceFromStart` | src/scim/groups/groups.service.ts:76-119 | and from any valid tables that hold the group, by two arrivals and four calls |
| `LoneRequests.AloneIsSerial` | src/scim/groups/groups.service.ts:36-119 | a request that runs alone ends within three of its calls with the serial tables and reply, as the service methods do |
| `LoneRequests.FinishesInThreeCalls` | src/scim/groups/groups.service.ts:36-119 | whatever runs beside it, a request makes at most three calls, and has finished with the third |
| `LoneRequests.IdlePatchOnlyReads` | src/scim/groups/groups.service.ts:109-113 | a patch that changes nothing opens no transaction |
| `LoneRequests.FailingStepKeepsTables` | src/scim/users/users.service.ts:34-84 | a call that ends its request in an error leaves all tables as they were |
| `SerialCalls.CreateGroupCall` | src/scim/groups/groups.service.ts:36-54 | the nested creation and the answer to its errors are: 409 for a taken name, else 409 or 400 by the first member that repeats or is no user, else the new row, the listed members and 201 |
| `SerialCalls.ReplaceGroupCall` | src/scim/groups/groups.service.ts:56-74 | the transaction and the re-read are: 409 for a name of another group, else 409 or 400 by the first faulty member, else the row and exactly the listed members, and 200 |
| `SerialCalls.PatchGroupCall` | src/scim/groups/groups.service.ts:76-114 | the transaction and the re-read are: 409 for a name of another group, else 400 when an added id is no user, else the attributes, the members without the removed and with the added ones, and 200 |
| `SerialCalls.MemberFaultIs` | prisma/schema.prisma:42-51 | a member list is without fault exactly when its ids are distinct users; otherwise the fault is that of the first id that repeats an earlier one or is no user |
| `SerialCalls.SerialValid` | prisma/schema.prisma:12-51 | every request keeps the constraints of the schema |
| `SerialCalls.SerialAllOrNothing` | src/scim/common/scim-exception.filter.ts:37-95 | a request that is refused changes nothing |
| `Bodies.UserCreated` | src/scim/users/users.service.ts:34-53 | for every body and tables: a creation that succeeds stores each field as sent, NULL for a missing or null one, the first email entry, `active` unless the body says false, and the hash exactly when a non-empty password is sent; it answers 201 with that row and touches no other |
| `Bodies.UserReplaced` | src/scim/users/users.service.ts:55-71 | a replacement writes each field sent, clears a null one, keeps the column of a missing one, takes `active` for true unless the body says false, and changes the hash only for a non-empty password |
| `Bodies.UserAnswers` | src/scim/users/users.mapper.ts:4-23 | every user request that answers with a body shows the id and each column of the row it leaves, an empty address not at all |
| `Bodies.GroupCreated` | src/scim/groups/groups.service.ts:36-54 | a creation with distinct users stores the fields of its body and appends its member rows in the order of the list |
| `Bodies.GroupReplaced` | src/scim/groups/groups.service.ts:56-74 | a replacement writes the fields of its body, and its member rows take the place of the old ones in the order of the list |
| `Bodies.GroupIsShown` | src/scim/groups/groups.mapper.ts:6-23 | in a valid state the representation has the id, name and external id of the group and, for its member rows in their order, the id and the user name of the user |
| `Bodies.GroupAnswers` | src/scim/groups/groups.service.ts:36-114 | every group request that answers with a body shows the group so, as it leaves it |
| `Bodies.UserRemoved` | src/scim/users/users.service.ts:81-84 | a deletion answers 204 and takes exactly the user and its memberships |
| `Bodies.GroupRemoved` | src/scim/groups/groups.service.ts:116-119 | a deletion answers 204 and takes exactly the group and its memberships |
| `Bodies.UserStatuses` | src/scim/users/users.service.ts:28-84 | for every user request the exact condition of 201, 200, 204, 404, 409 and 500, and the type of the error |
| `Bodies.GroupWriteStatuses` | src/scim/groups/groups.service.ts:36-74 | for every creation and replacement the exact condition of its status: 404 for a missing group, 409 for a name held elsewhere, else 201 or 200 for distinct users, and 409 or 400 by the first faulty member |
| `Bodies.GroupStatuses` | src/scim/groups/groups.service.ts:76-119 | the same for patches and deletions |
| `Bodies.GroupErrorTypes` | src/scim/common/scim-exception.filter.ts:37-95 | a conflict has the type `uniqueness`, a bad reference `invalidValue`, no other answer has one, and only 200 and 201 carry a body |
| `Bodies.Wiped` | src/demo/demo.controller.ts:94-101 | after a wipe all three tables are empty |
| `ScimErrors.FilterTable` | src/scim/common/scim-exception.filter.ts:37-95 | lost races look like failed pre-checks and malformed ids like missing ones; every other failure is a 500 |
| `Services.UsersService.Create` | src/scim/users/users.service.ts:34-53 | run alone, check and insert give the serial tables and reply |
| `Services.UsersService.Replace` | src/scim/users/users.service.ts:55-71 | run alone, the replace gives the serial tables and reply |
| `Services.UsersService.Patch` | src/scim/users/users.service.ts:73-79 | run alone, the patch gives the serial tables and reply |
| `Services.UsersService.Remove` | src/scim/users/users.service.ts:81-84 | run alone, the removal gives the serial tables and reply |
| `Services.GroupsService.Create` | src/scim/groups/groups.service.ts:36-54 | run alone, check and nested insert give the serial tables and reply |
| `Services.GroupsService.Replace` | src/scim/groups/groups.service.ts:56-74 | run alone, check, transaction and re-read give the serial tables and reply |
| `Services.GroupsService.BuildOperations` | src/scim/groups/groups.service.ts:79-107 | the two loops build the attribute update, then all removes, then all adds |
| `Services.GroupsService.Patch` | src/scim/groups/groups.service.ts:76-114 | run alone, check, transaction and re-read give the serial tables and reply |
| `Services.GroupsService.Remove` | src/scim/groups/groups.service.ts:116-119 | run alone, the removal gives the serial tables and reply |
| `Services.PrismaService.RunTransaction` | src/scim/groups/groups.service.ts:109-111 | executing the statements one by one and going back at the first failure is all or nothing |
| `Services.DemoController.Clear` | src/demo/demo.controller.ts:94-101 | run alone, the three deletes leave nothing |
| `GroupPatch.ApplyGroupPatch` | src/scim/groups/apply-group-patch.ts:16-56 | the loop returns the compiled patch of the specification, or fails exactly when it does |
| `GroupAttributes.PatchedAttributes` | src/scim/groups/apply-group-patch.ts:44-52 | for every row and every list that compiles: the last replace of the path `displayName`, or of that key in a path-less object, gives the name its text, the last path-less object with `externalId` gives that, and nothing else touches either |
| `GroupAttributes.GroupPatched` | src/scim/groups/groups.service.ts:76-114 | a group PATCH that succeeds sets exactly those attributes in the tables and shows the group |
| `GroupAttributes.AttributeForms` | src/scim/groups/apply-group-patch.ts:44-52 | for every row and text: by path, by an object with one key and by one with both, exactly the named attributes change |
| `GroupAttributes.OwnMembers` | src/scim/groups/apply-group-patch.ts:10-53 | for every operation: which ids it adds and removes, by list or by path, and exactly when it throws |
| `GroupPatch.EmptyPathIsNone` | src/scim/groups/apply-group-patch.ts:23-47 | an empty path counts as none |
| `GroupPatch.BatchMeansInOrder` | src/scim/groups/apply-group-patch.ts:16-56 | for every list and every membership, the executed batch equals the operations in order, each as the source reads it, if and only if no added id has a remove as its last mention; ill-typed lists are refused both ways |
| `GroupPatch.AddThenRemoveKeeps` | src/scim/groups/apply-group-patch.ts:19-53 | for every membership and id, adding and then removing it keeps the member, where the operations in order have it out |
| `RfcForms.OpMeansRfc` | src/scim/groups/apply-group-patch.ts:10-56 | for every operation: it does to every group what section 3.5.2 of RFC 7644 says, or is refused like it, if and only if it has one of the supported forms |
| `RfcForms.ReadAlikeIs` | src/scim/groups/apply-group-patch.ts:23-36 | the source and the section read the same members from a value, or both refuse it, exactly for a list with an ill-typed entry, a list whose members are all given by a `value` in these letters, a single ill-formed entry, a boolean or a number |
| `RfcLists.SupportedListMeansRfc` | src/scim/groups/apply-group-patch.ts:16-56 | for every group and every list of supported operations, the batch does what the section says if and only if no added id has a remove as its last mention |
| `RfcLists.BatchMeansRfc` | src/scim/groups/apply-group-patch.ts:16-56 | for every list that the source carries out, whatever its operations and filters, and for every refused list whose replacements select by id: the batch agrees with the section on all groups and filters if and only if both refuse it always, or neither ever does, every filter names an id and both have the same last word on every id |
| `RfcLists.RefusedListMeansRfc` | src/scim/groups/apply-group-patch.ts:16-56 | a list with an ill-typed operation, and one that the section always refuses, is refused by both whatever its filters |
| `RfcLists.OtherFiltersDiffer` | src/scim/groups/apply-group-patch.ts:10-39 | every list that the source carries out although it selects by something other than an id departs from the section on some group |
| `RfcExamples.FormsAreSupported` | src/scim/groups/apply-group-patch.ts:19-42 | adding and removing listed members, and removing one member by its path, are supported |
| `RfcExamples.ReplaceMembersIgnored` | src/scim/groups/apply-group-patch.ts:44-53 | for every group, a replacement of `members` leaves it, where the section wants exactly the listed members |
| `RfcExamples.RemoveAllIgnored` | src/scim/groups/apply-group-patch.ts:32-42 | for every group, a removal of `members` without a value leaves it, where the section wants nobody |
| `RfcExamples.SubAttributeRemovesMember` | src/scim/groups/apply-group-patch.ts:10-39 | for every group, the removal of a sub-attribute of a selected member removes the member, where the section keeps it |
| `RfcExamples.SelectedReplaceIgnored` | src/scim/groups/apply-group-patch.ts:44-53 | for every group, the replacement of a selected member leaves it, where the section swaps the member or refuses for want of a match |
| `RfcExamples.OtherLettersIgnored` | src/scim/groups/apply-group-patch.ts:23-29 | for every group, an add to `Members` leaves it, where the section adds the listed members |
| `RfcExamples.PathlessAddRefused` | src/scim/groups/apply-group-patch.ts:23-29 | for every group, an add without a path whose value is an object with members is refused, where the section adds them |
| `RfcExamples.CoveredMistake` | src/scim/groups/apply-group-patch.ts:16-56 | a list can agree with the section although one of its operations alone does not |
| `GroupPatch.BatchTwice` | src/scim/groups/apply-group-patch.ts:19-53 | the same patch again changes no membership |
| `GroupPatch.BatchPermuted` | src/scim/groups/apply-group-patch.ts:19-53 | any permutation of the operations gives the same membership |
| `GroupPatch.SyncMembership` | src/scim/groups/apply-group-patch.ts:23-42 | from any membership, removing who left and adding who joined, in either order of the two operations, gives exactly the wanted members |
| `GroupPatch.RemoveByPath` | src/scim/groups/apply-group-patch.ts:37-39 | a removal by a printed member path removes exactly that member |
| `GroupPatch.PatchesCommute` | src/scim/groups/apply-group-patch.ts:23-42 | from every membership, two patches commute if and only if neither sets an id the other clears |
| `GroupStore.PatchTransaction` | src/scim/groups/groups.service.ts:79-111 | a patch commits exactly when its name is free and its added ids are live; it then changes exactly the listed members and attributes, and fails with the code of the first broken constraint |
| `GroupStore.ReplaceTransaction` | src/scim/groups/groups.service.ts:59-71 | a replace commits exactly when its name is free and its members are distinct live users; the members are then exactly the list and other groups are untouched |
| `GroupStore.CreateGroupEffect` | src/scim/groups/groups.service.ts:42-51 | a creation commits exactly when its name is free and its members are distinct live users, and has exactly those members |
| `GroupStore.InsertMembersEffect` | src/scim/groups/groups.service.ts:46-48 | nested member rows go in exactly when the ids are distinct, new and live, and nothing else changes |
| `GroupStore.InsertMembersFault` | prisma/schema.prisma:42-51 | otherwise the first faulty id decides between P2002 and P2003 |
| `GroupStore.PatchRetry` | src/scim/groups/groups.service.ts:76-114 | retrying a committed patch commits and leaves the tables as they are |
| `GroupStore.PatchOrder` | src/scim/groups/groups.service.ts:93-111 | two patches of one group commit in both orders with equal memberships if and only if they do not conflict |
| `GroupStore.AttributesMeanInOrder` | src/scim/groups/apply-group-patch.ts:44-52 | on the attributes the compiled patch always means the operations in order |
| `GroupStore.UserDeleteCascades` | src/scim/users/users.service.ts:81-84 | deleting a user takes exactly that user out of every member list and changes no other user and no group |
| `GroupStore.GroupDeleteCascades` | src/scim/groups/groups.service.ts:116-119 | deleting a group takes exactly that group out of every user's list and changes nothing else |
| `RoundTrips.DemoViewIsConverse` | src/demo/demo.controller.ts:63-91 | in a valid state the demo page lists for a user, each once, the names of exactly the groups whose SCIM representation lists the user |
| `UserPatch.ApplyUserPatch` | src/scim/users/apply-user-patch.ts:57-72 | the loop over the mutable record returns the compiled record of the specification, or fails exactly when it does |
| `UserPatch.FieldsRecord.ApplyValueForPath` | src/scim/users/apply-user-patch.ts:12-42 | the switch leaves the record of the specification, or fails exactly when it does |
| `UserPatch.FieldsRecord.ApplyValueObject` | src/scim/users/apply-user-patch.ts:44-55 | the assignments leave the record of the specification, or fail exactly when it does |
| `UserAttributes.OwnGives` | src/scim/users/apply-user-patch.ts:12-55 | for every operation that does not throw: each column gets what a replacement or addition gives it, by path or in an object, and nothing else |
| `UserAttributes.ThrowsExactly` | src/scim/users/apply-user-patch.ts:12-55 | the operations that throw: a text that cannot be made, or a null first email |
| `UserAttributes.PatchedColumns` | src/scim/users/apply-user-patch.ts:12-72 | for every row and list carried out: each column holds what the last operation giving it anything gives, an email entry without an address leaves the email, and the password hash stays |
| `UserAttributes.UserPatched` | src/scim/users/users.service.ts:73-79 | a user PATCH that succeeds sets exactly these columns and shows the row |
| `UserPatch.EmptyPathIsNone` | src/scim/users/apply-user-patch.ts:64-68 | an empty path counts as none |
| `Json.TextForms` | src/scim/users/apply-user-patch.ts:17-28 | the text String() makes of each kind of value that is no array |
| `Json.JoinedItems` | src/scim/users/apply-user-patch.ts:17-28 | an array prints as its items joined by commas, nothing for a null one |
| `Json.FalsyIs` | src/scim/users/apply-user-patch.ts:14-16 | the values that read as false |
| `Json.VerbsInAnyCase` | src/scim/users/apply-user-patch.ts:61-62 | verbs are compared without regard to case |
| `UserPatch.BatchMeansInOrder` | src/scim/users/apply-user-patch.ts:12-72 | for every list, the single update equals the operations in order on all rows if and only if some operation throws, or all values have the types of their columns and no email is lost, or the last value given to some column has the wrong type |
| `UserPatch.RejectedWhen` | src/scim/users/apply-user-patch.ts:12-72 | the compiled update is rejected exactly when the last value that a list gives to some name or the email is neither null nor a string |
| `UserPatch.OnlyEmailCanDiffer` | src/scim/users/apply-user-patch.ts:44-55 | with values of the right types every column but email agrees for every row, and email too unless the list loses one |
| `UserPatch.LosesEmailWhen` | src/scim/users/apply-user-patch.ts:53-53 | a list loses an email exactly when the compiled email is `undefined` and some operation gave one |
| `UserPatch.ApplyOpOverlays` | src/scim/users/apply-user-patch.ts:57-72 | an operation overlays its own record on the fields so far and throws or not regardless of them |
| `RfcUserPatch.OpMeansRfc` | src/scim/users/apply-user-patch.ts:12-72 | for every operation: on all rows that show an address, or on all that show none, it does what section 3.5.2 of RFC 7644 says, or is refused like it, if and only if it has one of the supported forms |
| `RfcUserPatch.MeansRfcIsSameReading` | src/scim/users/apply-user-patch.ts:12-72 | agreement on all those rows comes down to comparing, column by column, the update the operation compiles to with the edits the section reads from it |
| `RfcUserPatch.SupportedListMeansRfc` | src/scim/users/apply-user-patch.ts:57-72 | for lists of operations supported on all rows, the single update does what the section says on every row if and only if the list is faithful |
| `RfcUserPatch.FormsAreSupported` | README.md:110-112 | deactivation in both documented forms, and replacing a text attribute or the one email by its path, follow the section on all rows; the path of the primary email does where an address is shown |
| `RfcUserPatch.RemovalIgnored` | src/scim/users/apply-user-patch.ts:60-62 | for every row, a removal of `externalId` leaves it, where the section unassigns it |
| `RfcUserPatch.NullIsStored` | src/scim/users/apply-user-patch.ts:26-28 | for every row, replacing `externalId` by null stores the text "null", where the section unassigns it |
| `RfcUserPatch.TextActivates` | src/scim/users/apply-user-patch.ts:14-16 | for every row, any non-empty text makes `active` true, where the section refuses it |
| `RfcUserPatch.PrimaryOfNone` | src/scim/users/apply-user-patch.ts:29-36 | the primary email of a row that shows none is set, where the section finds no target |
| `RfcUserPatch.SecondEmailLost` | src/scim/users/apply-user-patch.ts:29-36 | for every row, replacing the emails by two keeps the first, where the section has both |
| `UserPatch.PatchRebuildsUser` | src/scim/users/apply-user-patch.ts:12-55 | a patch carrying every attribute of a user, as one object or path by path, turns any row into that user but for the password |
| `UserPatch.DeactivationTouchesOnlyActive` | README.md:110-112 | the documented deactivation, by object or by path, changes `active` and nothing else |
| `UserPatch.LostEmailExample` | src/scim/users/apply-user-patch.ts:44-55 | for every row and address, an address followed by an entry without one leaves the row as it was, where the in-order meaning has the address |
| `RoundTrips.GroupPatchRequest` | src/scim/groups/groups.service.ts:76-114 | a group PATCH that succeeds leaves the membership of the batch, equal to the in-order one if and only if adds stand, the attributes of the in-order meaning, and all other groups |
| `RoundTrips.UserPatchRequest` | src/scim/users/users.service.ts:73-79 | a user PATCH that succeeds leaves the row of the batch, the in-order row for a faithful list, and everything else |
| `RoundTrips.UserRoundTrip` | src/scim/users/users.mapper.ts:4-23 | putting a user's representation back succeeds, answers it again and changes no table |
| `RoundTrips.GroupRoundTrip` | src/scim/groups/groups.mapper.ts:6-23 | putting a group's representation back succeeds and leaves the same rows with the same members |
| `RoundTrips.UserPutTwice` | src/scim/users/users.service.ts:55-71 | a second identical PUT changes nothing and answers the same |
| `RoundTrips.UserPutAfterPost` | src/scim/users/users.service.ts:34-71 | the body of a creation, without its password, sent again as a replacement changes nothing and shows the same resource |
| `RoundTrips.GroupPutTwice` | src/scim/groups/groups.service.ts:56-74 | a second identical PUT of a group leaves the tables as the first did |
| `RoundTrips.UserCopy` | src/scim/users/users.mapper.ts:4-23 | a representation recreates the row, but for the password and an empty email |
| `RoundTrips.GroupCopy` | src/scim/groups/groups.mapper.ts:6-23 | a representation under a free name creates a group with the same members and leaves the original |
| `Listing.UserListing` | src/scim/users/users.service.ts:12-26 | for every filter and page: `totalResults` counts all wanted users, whatever the page, the page has as many as are left from `startIndex` on and at most `count`, and its i-th entry is the wanted user with exactly startIndex - 1 + i wanted ones created before |
| `Listing.GroupListing` | src/scim/groups/groups.service.ts:13-28 | the same for groups |
| `Listing.WholeListing` | src/scim/users/users.service.ts:12-26 | without a filter, or with one on another attribute, the page is the rows from `startIndex` on, and `totalResults` the number of rows |
| `Listing.PlainListing` | src/scim/common/scim-filter.util.ts:11-30 | without parameters a listing shows the first hundred rows |
| `ListAnswers.UsersShown` | src/scim/users/users.controller.ts:46-62 | the answer to a listing of users carries the counts, and for each user on the page its representation, field by field |
| `ListAnswers.GroupsShown` | src/scim/groups/groups.controller.ts:42-58 | the same for groups, with their members and names |
| `Listing.UserLookupAgreesWithCreate` | src/scim/users/users.service.ts:12-38 | looking up any one-line name finds at most one user, and one exactly when creating it answers 409 |
| `Listing.GroupLookupAgreesWithCreate` | src/scim/groups/groups.service.ts:13-40 | likewise for groups, for creations that list nobody twice |
| `ListedWalks.AnyWalk` | src/scim/users/users.service.ts:12-26 | pages taken from the listings of users or of groups, whatever requests run before and between them, deletions and wipes included: no row is shown twice; a row is passed over if and only if one already shown is deleted while another is still to come; without that a complete walk has shown all that are left, and with it some row listed at one of its requests is never shown |
| `ListedWalks.WalkUnderGrowth` | src/scim/groups/groups.service.ts:13-28 | while no deletion of the kind and no wipe is in flight or arrives, whatever ran before, a completed walk shows every row there at the start exactly once, in creation order |
| `ListedWalks.DeletionSkipsUser` | src/scim/users/users.service.ts:12-26 | in any reachable state with a user's deletion in flight: when it runs, a client that was shown the first k users is never shown the next one if the deleted user is among the k, and otherwise keeps its place |
| `ListedWalks.FilteredWalk` | src/scim/users/users.service.ts:12-26 | with any filter, on tables that do not change, as many non-empty requests as there are matches show exactly the matching rows, each once, by creation |
| `Walks.WalkOfEvolvingLists` | src/scim/users/users.service.ts:15-23 | the same for any lists that lose rows anywhere and gain new ones at the end |
| `Walks.PassedRowNeverShown` | src/scim/users/users.service.ts:15-23 | a row once passed over is never shown, whatever follows |
| `Walks.WalkComplete` | src/scim/users/users.service.ts:15-23 | a completed walk over a growing list is exactly the last list |
| `Walks.WalkOfUnchangingList` | src/scim/users/users.service.ts:15-23 | on an unchanging list as many non-empty requests as rows complete the walk with exactly the list |
| `FilterUtil.RecogniserIsGrammar` | src/scim/common/scim-filter.util.ts:11-16 | the scanner accepts exactly the strings of the grammar, with its attribute and value; a missing or empty filter is none |
| `FilterUtil.ClassesAre` | src/scim/common/scim-filter.util.ts:13-13 | the character classes of the pattern, by code point |
| `FilterUtil.DocumentedForm` | src/scim/common/scim-filter.util.ts:1-5 | the form `attribute eq "value"`, also on a part of an attribute, gives the attribute and the value |
| `FilterUtil.DecompositionUnique` | src/scim/common/scim-filter.util.ts:11-16 | a filter is cut into its pieces in at most one way |
| `FilterUtil.PrintParse` | src/scim/common/scim-filter.util.ts:11-16 | a printed pair is parsed back if and only if the attribute is one and the value has no line terminator |
| `FilterUtil.ParsePagination` | src/scim/common/scim-filter.util.ts:23-30 | a start of 1 or more and a count of 0 or more are passed through, anything else gives 1 or 100 |
| `MemberPath.ExtractIsLeftmost` | src/scim/groups/apply-group-patch.ts:10-14 | the result is the id of the leftmost occurrence of the pattern |
| `MemberPath.ExtractFailsWhenAbsent` | src/scim/groups/apply-group-patch.ts:10-14 | there is no result exactly when the pattern occurs nowhere |
| `MemberPath.PrintExtract` | src/scim/groups/apply-group-patch.ts:10-14 | a printed path gives its id back if and only if the id is non-empty and free of quotes |
| `EventsStore.Store.Add` | src/demo/events.store.ts:28-35 | numbering, pushing and trimming in place |
| `EventsStore.Store.List` | src/demo/events.store.ts:37-39 | the buffered events, oldest first |
| `EventsStore.BufferHolds` | src/demo/events.store.ts:23-43 | of the events added since the last clear the buffer holds the newest 300, or all of them when there are fewer, oldest first |
| `EventsStore.HistoryIs` | src/demo/events.store.ts:28-35 | every report stands in the history at its place, with the next number |
| `EventsStore.SinceClearIs` | src/demo/events.store.ts:41-43 | what was added since the last clear is what follows it |
| `EventsStore.BufferIsSuffix` | src/demo/events.store.ts:23-43 | after any adds and clears the buffer is the last min(300, adds since the last clear) events of the full history |
| `EventsStore.BufferNumbers` | src/demo/events.store.ts:23-43 | the buffered numbers are contiguous and end at the counter, and none is ever given twice |
| `ActivityLog.LogPanel.UpdateLog` | src/demo/demo.page.ts:482-490 | filtering, sorting and inserting card by card gives the specified view |
| `Replication.LogAlwaysConsistent` | src/demo/demo.page.ts:476-506 | under any interleaving of adds, clears, polls and reordered or lost deliveries the cards are strictly decreasing and renderedSeq is the top one's number |
| `Replication.DeliveryShowsSnapshot` | src/demo/demo.page.ts:482-490 | a delivered snapshot that is not older than the log becomes its top, card for card; an older one changes nothing and an empty one empties the log |
| `Replication.FreshPollShowsBuffer` | src/demo/demo.page.ts:492-502 | a poll answered at once makes the log show the whole buffer, or empties it |
| `Replication.ClearedPageShowsBuffer` | src/demo/demo.page.ts:504-507 | the clear button empties the log; a poll answered at once then shows exactly the buffer, newest first |
| `Replication.ServerIsStore` | src/demo/events.store.ts:23-43 | under any actions the server holds what the store holds after the same reports and clears |
| `Replication.ResponsesArePolls` | src/demo/demo.page.ts:492-502 | every response in flight is the buffer as some poll found it |
| `Replication.InFlightChanges` | src/demo/demo.page.ts:492-502 | a poll adds one response, a delivery or loss takes that one out, nothing else does |

## Left out

- JWT validation, bcrypt itself, the edge proxy, logging, Swagger, discovery and start scripts: libraries, I/O or constants.
- Reading requests among the requests in flight: each is one call without effect on the tables.
- Timestamps beyond creation order, the unused `raw` column and the ids of membership rows.
- The prose of error bodies: the refinement compares status, scimType and resource, which is what a client can act on.
- The isolation levels of PostgreSQL and the internals of Prisma, among them the operator objects it accepts in place of plain values.
- Linearizable answers of group replace and patch: their re-read is a separate call, so their answers are stated as the serial reply, the group or its absence at that re-read, or 400 for the race above.
- RfcLists.BatchMeansRfc: lists that the source refuses and that replace members selected by a filter other than `value eq "id"` are covered by `RfcLists.RefusedListMeansRfc` and operation by operation only, because whether the section refuses such a list on every group depends on whether its filters can all be met at once.
- RfcUserPatch.OpMeansRfc: types, labels and primary flags of emails, since a row stores one address.
- Intermediate name conflicts of a patch that renames several times: the in-order comparison is made on one row and one membership.
- Page parameters that are not integers, and JavaScript's number parsing.
- The HTML of the page, the counters and other columns of its user table, and the defaults that the ingest endpoint fills in.
- A restart of the server, after which the dashboard's renderedSeq can be ahead of the numbers.
- Paths and members with prototype names, and objects that class-transformer rewrites.

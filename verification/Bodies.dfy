/** What the body of a request puts into a row, and what an answer shows of one, field by field. */
module Bodies {
  import opened Prelude
  import opened Tables
  import opened Resources
  import opened Api
  import opened SerialCalls
  import opened Json
  import GroupPatch
  import UserPatch

  // ---------------------------------------------------------------- users

  /** A text column that a creation fills: NULL unless the body gives a value. */
  ghost predicate Stores(column: Option<string>, field: Field<string>) {
    match field
    case Given(s) => column == Some(s)
    case _ => column == None
  }

  /** A text column that a replacement writes: a missing field leaves it, `null` clears it. */
  ghost predicate Replaces(before: Option<string>, column: Option<string>, field: Field<string>) {
    match field
    case Missing => column == before
    case Null => column == None
    case Given(s) => column == Some(s)
  }

  /** A part of `name`, missing when there is no name object. */
  ghost predicate IsNamePart(dto: UserDto, part: NameDto -> Field<string>, field: Field<string>) {
    if dto.name.Given? then field == part(dto.name.value) else field == Missing
  }

  ghost predicate IsFirstEmail(dto: UserDto, field: Field<string>) {
    if dto.emails.Given? && |dto.emails.value| > 0 then field == dto.emails.value[0] else field == Missing
  }

  predicate SendsPassword(dto: UserDto) {
    dto.password.Given? && |dto.password.value| > 0
  }

  /** The answer shows the row, and an empty address not at all. */
  ghost predicate ShowsUser(body: Body, id: Id, row: User) {
    && body.UserBody?
    && var r := body.user;
    && r.id == id
    && r.userName == row.userName
    && r.externalId == row.externalId
    && r.givenName == row.givenName
    && r.familyName == row.familyName
    && r.active == row.active
    && (forall a :: a in r.emails <==> row.email == Some(a) && a != "")
    && |r.emails| <= 1
  }

  /** A creation that succeeds stores the fields of its body in a new row and shows it. */
  lemma UserCreated(db: Database, newId: Id, dto: UserDto, digest: string)
    requires newId !in db.users.rows && !UserNameTaken(db, dto.userName)
    ensures var (db', reply) := Serial(db, newId, CreateUser(dto, digest));
      && reply.status == 201 && reply.scimType == None
      && db'.users.order == db.users.order + [newId]
      && db'.users.rows.Keys == db.users.rows.Keys + {newId}
      && (forall id :: id in db.users.rows ==> db'.users.rows[id] == db.users.rows[id])
      && db'.groups == db.groups && db'.members == db.members
      && var row := db'.users.rows[newId];
      && row.userName == dto.userName
      && Stores(row.externalId, dto.externalId)
      && (exists g :: IsNamePart(dto, (n: NameDto) => n.givenName, g) && Stores(row.givenName, g))
      && (exists f :: IsNamePart(dto, (n: NameDto) => n.familyName, f) && Stores(row.familyName, f))
      && (exists e :: IsFirstEmail(dto, e) && Stores(row.email, e))
      && (row.active <==> dto.active != Given(false))
      && row.passwordHash == (if SendsPassword(dto) then Some(digest) else None)
      && ShowsUser(reply.body, newId, row)
  {
    var row := UserToCreate(dto, digest);
    assert IsNamePart(dto, (n: NameDto) => n.givenName, GivenName(dto)) && Stores(row.givenName, GivenName(dto));
    assert IsNamePart(dto, (n: NameDto) => n.familyName, FamilyName(dto)) && Stores(row.familyName, FamilyName(dto));
    assert IsFirstEmail(dto, FirstEmail(dto)) && Stores(row.email, FirstEmail(dto));
  }

  /** A replacement that succeeds writes the fields of its body and shows the row. A new password changes
      the hash, and nothing else does. */
  lemma UserReplaced(db: Database, id: Id, dto: UserDto, digest: string, newId: Id)
    requires id in db.users.rows && !UserNameTakenByOther(db, id, dto.userName)
    ensures var (db', reply) := Serial(db, newId, ReplaceUser(id, dto, digest));
      && reply.status == 200 && reply.scimType == None
      && db'.users.order == db.users.order && db'.users.rows.Keys == db.users.rows.Keys
      && (forall other :: other in db.users.rows && other != id ==> db'.users.rows[other] == db.users.rows[other])
      && db'.groups == db.groups && db'.members == db.members
      && var before, row := db.users.rows[id], db'.users.rows[id];
      && row.userName == dto.userName
      && Replaces(before.externalId, row.externalId, dto.externalId)
      && (exists g :: IsNamePart(dto, (n: NameDto) => n.givenName, g) && Replaces(before.givenName, row.givenName, g))
      && (exists f :: IsNamePart(dto, (n: NameDto) => n.familyName, f) && Replaces(before.familyName, row.familyName, f))
      && (exists e :: IsFirstEmail(dto, e) && Replaces(before.email, row.email, e))
      && (row.active <==> dto.active != Given(false))
      && row.passwordHash == (if SendsPassword(dto) && digest != "" then Some(digest) else before.passwordHash)
      && ShowsUser(reply.body, id, row)
  {
    var before := db.users.rows[id];
    var row := UpdatedUser(before, UserToReplace(dto, digest));
    assert IsNamePart(dto, (n: NameDto) => n.givenName, GivenName(dto)) && Replaces(before.givenName, row.givenName, GivenName(dto));
    assert IsNamePart(dto, (n: NameDto) => n.familyName, FamilyName(dto)) && Replaces(before.familyName, row.familyName, FamilyName(dto));
    assert IsFirstEmail(dto, FirstEmail(dto)) && Replaces(before.email, row.email, FirstEmail(dto));
  }

  /** Every user request that succeeds with a body shows the row it leaves. */
  lemma UserAnswers(db: Database, newId: Id, req: Request)
    requires req.CreateUser? || req.ReplaceUser? || req.PatchUser?
    ensures var (db', reply) := Serial(db, newId, req);
            var id := if req.CreateUser? then newId else req.id;
            reply.status in {200, 201} ==> id in db'.users.rows && ShowsUser(reply.body, id, db'.users.rows[id])
  {
  }

  // ---------------------------------------------------------------- groups

  function RowOf(g: Id): Member -> bool {
    (m: Member) => m.groupId == g
  }

  /** The answer shows the group's row, and for each of its member rows, in their order, the user's id and
      name. */
  ghost predicate ShowsGroup(db: Database, body: Body, id: Id) {
    && id in db.groups.rows
    && body.GroupBody?
    && var r := body.group;
    && r.id == id
    && r.displayName == db.groups.rows[id].displayName
    && r.externalId == db.groups.rows[id].externalId
    && |r.members| == Before(db.members, RowOf(id), |db.members|)
    && forall k :: 0 <= k < |db.members| && db.members[k].groupId == id ==> ShowsMemberRow(db, r, id, k)
  }

  ghost predicate ShowsMemberRow(db: Database, r: GroupResource, id: Id, k: nat)
    requires k < |db.members|
  {
    var rank := Before(db.members, RowOf(id), k);
    && rank < |r.members|
    && db.members[k].userId in db.users.rows
    && r.members[rank].value == db.members[k].userId
    && r.members[rank].display == db.users.rows[db.members[k].userId].userName
  }

  lemma {:induction false} MemberIdsConcat(a: seq<Member>, b: seq<Member>, g: Id)
    ensures MemberIds(a + b, g) == MemberIds(a, g) + MemberIds(b, g)
  {
    if a == [] {
      assert a + b == b;
    } else {
      assert (a + b)[1..] == a[1..] + b;
      MemberIdsConcat(a[1..], b, g);
    }
  }

  lemma {:induction false} MemberIdsBefore(ms: seq<Member>, g: Id, k: nat)
    requires k <= |ms|
    ensures |MemberIds(ms[..k], g)| == Before(ms, RowOf(g), k)
    decreases k
  {
    if k > 0 {
      var n := k - 1;
      MemberIdsBefore(ms, g, n);
      assert ms[..k] == ms[..n] + [ms[n]];
      MemberIdsConcat(ms[..n], [ms[n]], g);
      assert [ms[n]][1..] == [];
      BelowNext(ms, RowOf(g), n);
    }
  }

  lemma MemberIdsAt(ms: seq<Member>, g: Id, k: nat)
    requires k < |ms| && ms[k].groupId == g
    ensures var rank := Before(ms, RowOf(g), k);
            rank < |MemberIds(ms, g)| && MemberIds(ms, g)[rank] == ms[k].userId
  {
    MemberIdsBefore(ms, g, k);
    assert ms == ms[..k] + ms[k..];
    MemberIdsConcat(ms[..k], ms[k..], g);
    assert MemberIds(ms[k..], g) == [ms[k].userId] + MemberIds(ms[k..][1..], g);
  }

  lemma {:induction false} MemberRefsAt(users: map<Id, User>, ids: seq<Id>, i: nat)
    requires i < |ids| && forall u :: u in ids ==> u in users
    ensures |MemberRefs(users, ids)| == |ids| && MemberRefs(users, ids)[i] == MemberRef(ids[i], users[ids[i]].userName)
  {
    if i > 0 { MemberRefsAt(users, ids[1..], i - 1); }
  }

  /** Reading a group in a valid state shows it. */
  lemma GroupIsShown(db: Database, status: int, id: Id)
    requires Valid(db)
    ensures id !in db.groups.rows ==> GroupOk(db, status, id) == Reply(404, None, NoBody)
    ensures id in db.groups.rows ==>
              GroupOk(db, status, id).status == status && GroupOk(db, status, id).scimType == None
              && ShowsGroup(db, GroupOk(db, status, id).body, id)
  {
    if id in db.groups.rows {
      var r := ToScimGroup(db, id);
      var ids := MemberIds(db.members, id);
      forall u | u in ids ensures u in db.users.rows { assert Member(id, u) in db.members; }
      MemberIdsBefore(db.members, id, |db.members|);
      assert db.members[..|db.members|] == db.members;
      forall k | 0 <= k < |db.members| && db.members[k].groupId == id ensures ShowsMemberRow(db, r, id, k) {
        MemberIdsAt(db.members, id, k);
        assert db.members[k] in db.members;
        MemberRefsAt(db.users.rows, ids, Before(db.members, RowOf(id), k));
      }
    }
  }

  /** Every group request that succeeds with a body shows the group as it leaves it. */
  lemma GroupAnswers(db: Database, newId: Id, req: Request)
    requires Valid(db) && (req.CreateGroup? ==> IdUnused(db, newId))
    requires req.CreateGroup? || req.ReplaceGroup? || req.PatchGroup?
    ensures var (db', reply) := Serial(db, newId, req);
            reply.status in {200, 201} ==> ShowsGroup(db', reply.body, if req.CreateGroup? then newId else req.id)
  {
    SerialGroupValid(db, newId, req);
    var (db', reply) := Serial(db, newId, req);
    GroupIsShown(db', if req.CreateGroup? then 201 else 200, if req.CreateGroup? then newId else req.id);
  }

  /** The members sent are distinct users. */
  ghost predicate GoodMembers(db: Database, us: seq<Id>) {
    NoDup(us) && forall u :: u in us ==> u in db.users.rows
  }

  /** `members` when given, and nobody otherwise. */
  ghost predicate IsMemberList(dto: GroupDto, us: seq<Id>) {
    if dto.members.Given? then us == dto.members.value else us == []
  }

  /** The member rows of `g`, and only they, follow the others, in the order of the list. */
  ghost predicate MembersAppended(others: seq<Member>, after: seq<Member>, g: Id, us: seq<Id>) {
    && |after| == |others| + |us|
    && (forall k :: 0 <= k < |others| ==> after[k] == others[k] && others[k].groupId != g)
    && forall k :: 0 <= k < |us| ==> after[|others| + k] == Member(g, us[k])
  }

  lemma NoFault(db: Database, us: seq<Id>)
    requires GoodMembers(db, us)
    ensures MemberFault(db.users.rows, us, 0) == None
  {
    MemberFaultIs(db.users.rows, us, 0);
    assert us[..0] == [];
  }

  lemma RowsAppended(others: seq<Member>, g: Id, us: seq<Id>)
    requires forall m :: m in others ==> m.groupId != g
    ensures MembersAppended(others, others + Rows(g, us), g, us)
  {
    forall k | 0 <= k < |others| ensures others[k].groupId != g { assert others[k] in others; }
  }

  /** A creation under a free name with distinct users stores the fields of its body. */
  lemma GroupCreated(db: Database, newId: Id, dto: GroupDto, us: seq<Id>)
    requires Valid(db) && IdUnused(db, newId) && !DisplayNameTaken(db, dto.displayName)
    requires IsMemberList(dto, us) && GoodMembers(db, us)
    ensures var (db', reply) := Serial(db, newId, CreateGroup(dto));
      && reply.status == 201
      && db'.users == db.users && db'.groups.order == db.groups.order + [newId]
      && db'.groups.rows.Keys == db.groups.rows.Keys + {newId}
      && (forall g :: g in db.groups.rows ==> db'.groups.rows[g] == db.groups.rows[g])
      && db'.groups.rows[newId].displayName == dto.displayName
      && Stores(db'.groups.rows[newId].externalId, dto.externalId)
      && MembersAppended(db.members, db'.members, newId, us)
  {
    NoFault(db, us);
    RowsAppended(db.members, newId, us);
    assert Serial(db, newId, CreateGroup(dto)).0
        == Database(db.users, InsertRow(db.groups, newId, GroupToCreate(dto)), db.members + Rows(newId, us));
  }

  /** A replacement with a name free of other groups and distinct users writes the fields of its body; the
      old member rows go and the new ones come last. */
  lemma GroupReplaced(db: Database, id: Id, dto: GroupDto, us: seq<Id>, newId: Id)
    requires Valid(db) && id in db.groups.rows && !DisplayNameTakenByOther(db, id, dto.displayName)
    requires IsMemberList(dto, us) && GoodMembers(db, us)
    ensures var (db', reply) := Serial(db, newId, ReplaceGroup(id, dto));
      && reply.status == 200
      && db'.users == db.users && db'.groups.order == db.groups.order && db'.groups.rows.Keys == db.groups.rows.Keys
      && (forall g :: g in db.groups.rows && g != id ==> db'.groups.rows[g] == db.groups.rows[g])
      && db'.groups.rows[id].displayName == dto.displayName
      && Replaces(db.groups.rows[id].externalId, db'.groups.rows[id].externalId, dto.externalId)
      && MembersAppended(Keep(db.members, (m: Member) => m.groupId != id), db'.members, id, us)
  {
    NoFault(db, us);
    var others := Keep(db.members, (m: Member) => m.groupId != id);
    RowsAppended(others, id, us);
    ReplacedTables(db, id, dto, us, newId, others);
  }

  lemma ReplacedTables(db: Database, id: Id, dto: GroupDto, us: seq<Id>, newId: Id, others: seq<Member>)
    requires id in db.groups.rows && !DisplayNameTakenByOther(db, id, dto.displayName)
    requires IsMemberList(dto, us) && MemberFault(db.users.rows, us, 0) == None
    requires others == Keep(db.members, (m: Member) => m.groupId != id)
    ensures var (db', reply) := Serial(db, newId, ReplaceGroup(id, dto));
      && reply.status == 200
      && id in db'.groups.rows
      && db' == Database(db.users, SetRow(db.groups, id, db'.groups.rows[id]), others + Rows(id, us))
      && db'.groups.rows[id].displayName == dto.displayName
      && Replaces(db.groups.rows[id].externalId, db'.groups.rows[id].externalId, dto.externalId)
  {
  }

  // ---------------------------------------------------------------- deletions, and who is refused

  /** Deleting a user takes the row and its memberships, and nothing else. */
  lemma UserRemoved(db: Database, id: Id, newId: Id)
    requires Valid(db) && id in db.users.rows
    ensures var (db', reply) := Serial(db, newId, RemoveUser(id));
      && reply == Reply(204, None, NoBody)
      && db'.users.rows.Keys == db.users.rows.Keys - {id}
      && (forall other :: other in db.users.rows && other != id ==> db'.users.rows[other] == db.users.rows[other])
      && db'.groups == db.groups
      && forall m :: m in db'.members <==> m in db.members && m.userId != id
  {
  }

  lemma GroupRemoved(db: Database, id: Id, newId: Id)
    requires Valid(db) && id in db.groups.rows
    ensures var (db', reply) := Serial(db, newId, RemoveGroup(id));
      && reply == Reply(204, None, NoBody)
      && db'.groups.rows.Keys == db.groups.rows.Keys - {id}
      && (forall other :: other in db.groups.rows && other != id ==> db'.groups.rows[other] == db.groups.rows[other])
      && db'.users == db.users
      && forall m :: m in db'.members <==> m in db.members && m.groupId != id
  {
  }

  ghost predicate NameHeld(db: Database, name: string, except: set<Id>) {
    exists id :: id in db.users.rows && id !in except && db.users.rows[id].userName == name
  }

  ghost predicate GroupNameHeld(db: Database, name: string, except: set<Id>) {
    exists id :: id in db.groups.rows && id !in except && db.groups.rows[id].displayName == name
  }

  /** The status of every user request, and the type of its error. */
  lemma UserStatuses(db: Database, newId: Id, id: Id, dto: UserDto, digest: string, fields: UserPatch.Fields)
    ensures Serial(db, newId, CreateUser(dto, digest)).1.status == if NameHeld(db, dto.userName, {}) then 409 else 201
    ensures Serial(db, newId, ReplaceUser(id, dto, digest)).1.status ==
            if id !in db.users.rows then 404 else if NameHeld(db, dto.userName, {id}) then 409 else 200
    ensures Serial(db, newId, PatchUser(id, fields)).1.status ==
            if id !in db.users.rows then 404
            else if UserPatch.ToUpdate(fields).None? then 500
            else if NameHeld(db, if fields.userName.Defined? then fields.userName.value else db.users.rows[id].userName, {id}) then 409
            else 200
    ensures Serial(db, newId, RemoveUser(id)).1.status == if id in db.users.rows then 204 else 404
    ensures forall req :: req in {CreateUser(dto, digest), ReplaceUser(id, dto, digest), PatchUser(id, fields), RemoveUser(id)} ==>
              (Serial(db, newId, req).1.scimType == if Serial(db, newId, req).1.status == 409 then Some("uniqueness") else None)
  {
  }

  /** The first faulty id of a member list: it repeats an earlier one, or is no user. */
  ghost predicate FirstFault(db: Database, us: seq<Id>, j: nat) {
    && j < |us| && (us[j] in us[..j] || us[j] !in db.users.rows)
    && forall i :: 0 <= i < j ==> us[i] !in us[..i] && us[i] in db.users.rows
  }

  /** What the list of a creation or a replacement comes to: `good` when its ids are distinct users, or else 409
      or 400 by its first fault. */
  ghost predicate ListStatus(db: Database, us: seq<Id>, good: int, status: int) {
    && (GoodMembers(db, us) ==> status == good)
    && forall j: nat :: FirstFault(db, us, j) ==> status == if us[j] in us[..j] then 409 else 400
  }

  lemma FaultDecides(db: Database, us: seq<Id>, good: int)
    ensures var fault := MemberFault(db.users.rows, us, 0);
            ListStatus(db, us, good, if fault.Some? then FaultReply(fault.value).status else good)
  {
    MemberFaultIs(db.users.rows, us, 0);
    assert us[..0] == [];
    forall j: nat | FirstFault(db, us, j)
      ensures MemberFault(db.users.rows, us, 0) == Some(if us[j] in us[..j] then RepeatedMember else UnknownMember)
    {
      FaultAt(db, us, j, 0);
    }
  }

  /** The status of a group creation or replacement. */
  lemma GroupWriteStatuses(db: Database, newId: Id, id: Id, dto: GroupDto, us: seq<Id>)
    requires IsMemberList(dto, us)
    ensures var status := Serial(db, newId, CreateGroup(dto)).1.status;
            if GroupNameHeld(db, dto.displayName, {}) then status == 409 else ListStatus(db, us, 201, status)
    ensures var status := Serial(db, newId, ReplaceGroup(id, dto)).1.status;
            if id !in db.groups.rows then status == 404
            else if GroupNameHeld(db, dto.displayName, {id}) then status == 409
            else ListStatus(db, us, 200, status)
  {
    FaultDecides(db, us, 201);
    FaultDecides(db, us, 200);
  }

  /** The status of a group patch or deletion. */
  lemma GroupStatuses(db: Database, newId: Id, id: Id, p: GroupPatch.Patch)
    ensures Serial(db, newId, PatchGroup(id, p)).1.status ==
            if id !in db.groups.rows then 404
            else if !GroupPatch.Typed(p) then 500
            else if p.displayName.Some? && GroupNameHeld(db, p.displayName.value, {id}) then 409
            else if exists u :: JStr(u) in p.addIds && u !in db.users.rows then 400
            else 200
    ensures Serial(db, newId, RemoveGroup(id)).1.status == if id in db.groups.rows then 204 else 404
  {
    if GroupPatch.Typed(p) {
      assert forall u :: u in GroupPatch.Ids(p.addIds) <==> JStr(u) in p.addIds;
    }
  }

  lemma {:induction false} FaultAt(db: Database, us: seq<Id>, j: nat, k: nat)
    requires FirstFault(db, us, j) && k <= j
    ensures MemberFault(db.users.rows, us, k) == Some(if us[j] in us[..j] then RepeatedMember else UnknownMember)
    decreases j - k
  {
    if k < j { FaultAt(db, us, j, k + 1); }
  }

  /** The type tells a conflict from a bad reference; other answers have none. */
  lemma GroupErrorTypes(db: Database, newId: Id, req: Request)
    requires req.CreateGroup? || req.ReplaceGroup? || req.PatchGroup? || req.RemoveGroup? || req.ClearData?
    ensures var r := Serial(db, newId, req).1;
      && (r.scimType == Some("uniqueness") <==> r.status == 409)
      && (r.scimType == Some("invalidValue") <==> r.status == 400)
      && (r.scimType == None <==> r.status !in {400, 409})
      && (r.body.NoBody? <==> r.status !in {200, 201})
  {
  }

  /** A wipe leaves nothing. */
  lemma Wiped(db: Database, newId: Id)
    ensures var (db', reply) := Serial(db, newId, ClearData);
      && reply == Reply(204, None, NoBody)
      && db'.users.order == [] && db'.groups.order == [] && db'.members == []
      && db'.users.rows == map[] && db'.groups.rows == map[]
  {
  }
}

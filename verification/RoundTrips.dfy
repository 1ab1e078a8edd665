/** Representations that go out through the mappers and come back through the write endpoints. */
module RoundTrips {
  import opened Prelude
  import opened Tables
  import opened Resources
  import opened Api
  import opened SerialCalls
  import opened GroupStore
  import GroupPatch
  import UserPatch
  import Json

  // ---------------------------------------------------------------- GET, then PUT the result back

  /** Putting a user's own representation back succeeds and changes no table at all. */
  lemma UserRoundTrip(db: Database, id: Id, digest: string, newId: Id)
    requires Valid(db) && id in db.users.rows
    ensures var resource := ToScimUser(id, db.users.rows[id]);
            Serial(db, newId, ReplaceUser(id, UserPutBody(resource), digest)) == (db, Reply(200, None, UserBody(resource)))
  {
    var row := db.users.rows[id];
    var dto := UserPutBody(ToScimUser(id, row));
    assert UpdatedUser(row, UserToReplace(dto, digest)) == row;
    assert db.users.rows[id := row] == db.users.rows;
  }

  /** The members of the representation, sent back, are the ids of the member rows. */
  lemma EchoedMembers(users: map<Id, User>, ids: seq<Id>)
    requires forall u :: u in ids ==> u in users
    ensures var refs := MemberRefs(users, ids);
            seq(|refs|, i requires 0 <= i < |refs| => refs[i].value) == ids
  {
  }

  lemma MemberRowsLive(db: Database, id: Id)
    requires Valid(db)
    ensures NoDup(MemberIds(db.members, id)) && AllLive(db, MemberIds(db.members, id))
  {
    MemberIdsNoDup(db.members, id);
    forall u | u in MemberIds(db.members, id) ensures u in db.users.rows {
      assert Member(id, u) in db.members;
    }
  }

  /** A replacement that names a group's own attributes and members commits and leaves the same rows. */
  lemma ReplaceByItself(db: Database, id: Id, dto: GroupDto)
    requires Valid(db) && id in db.groups.rows
    requires MemberList(dto) == MemberIds(db.members, id) && dto.displayName == db.groups.rows[id].displayName
    requires Updated(db.groups.rows[id].externalId, AsChange(dto.externalId)) == db.groups.rows[id].externalId
    ensures var t := Transaction(db, ReplaceStmts(id, dto));
            t.Ok? && SameTables(db, t.value) && Valid(t.value)
  {
    MemberRowsLive(db, id);
    ReplaceTransaction(db, id, dto);
    assert db.groups.rows[id := db.groups.rows[id]] == db.groups.rows;
    SameMembersSameTables(db, Transaction(db, ReplaceStmts(id, dto)).value, id);
  }

  lemma ReplaceReply(db: Database, id: Id, dto: GroupDto, newId: Id)
    requires id in db.groups.rows && Transaction(db, ReplaceStmts(id, dto)).Ok?
    requires id in Transaction(db, ReplaceStmts(id, dto)).value.groups.rows
    ensures Serial(db, newId, ReplaceGroup(id, dto)).0 == Transaction(db, ReplaceStmts(id, dto)).value
    ensures Serial(db, newId, ReplaceGroup(id, dto)).1.status == 200
  {
    ReplaceGroupCall(db, id, dto);
  }

  /** Putting a group's own representation back succeeds and leaves the same rows, with the same
      members: the representation lists distinct live users because pairs are unique and references hold. */
  lemma GroupRoundTrip(db: Database, id: Id, newId: Id)
    requires Valid(db) && id in db.groups.rows
    ensures var (db', reply) := Serial(db, newId, ReplaceGroup(id, GroupPutBody(ToScimGroup(db, id))));
            reply.status == 200 && SameTables(db, db') && Valid(db')
  {
    var dto := GroupPutBody(ToScimGroup(db, id));
    MemberRowsLive(db, id);
    EchoedMembers(db.users.rows, MemberIds(db.members, id));
    ReplaceByItself(db, id, dto);
    ReplaceReply(db, id, dto, newId);
  }

  lemma SameMembersSameTables(db: Database, db': Database, id: Id)
    requires db'.users == db.users && db'.groups == db.groups
    requires OthersUntouched(db, db', id)
    requires MembersOf(db', id) == Elems(MemberIds(db.members, id))
    ensures SameTables(db, db')
  {
    SameMembershipRows(db, db', id);
  }

  // ---------------------------------------------------------------- PUT twice, PUT after POST

  /** Replacing a user a second time with the same body changes nothing and answers the same. */
  lemma UserPutTwice(db: Database, id: Id, dto: UserDto, digest: string, newId: Id)
    requires Serial(db, newId, ReplaceUser(id, dto, digest)).1.status == 200
    ensures var (once, reply) := Serial(db, newId, ReplaceUser(id, dto, digest));
            Serial(once, newId, ReplaceUser(id, dto, digest)) == (once, reply)
  {
    var once := Serial(db, newId, ReplaceUser(id, dto, digest)).0;
    var row := once.users.rows[id];
    assert UpdatedUser(row, UserToReplace(dto, digest)) == row;
    assert once.users.rows[id := row] == once.users.rows;
  }

  /** Sending the body of a creation again, without its password, as a replacement changes nothing. */
  lemma UserPutAfterPost(db: Database, newId: Id, dto: UserDto, digest: string, later: Id)
    requires newId !in db.users.rows && !UserNameTaken(db, dto.userName)
    ensures var (created, reply) := Serial(db, newId, CreateUser(dto, digest));
            var (after, again) := Serial(created, later, ReplaceUser(newId, dto.(password := Missing), digest));
            reply.status == 201 && again.status == 200 && again.body == reply.body && after == created
  {
    var created := Serial(db, newId, CreateUser(dto, digest)).0;
    var row := created.users.rows[newId];
    assert UpdatedUser(row, UserToReplace(dto.(password := Missing), digest)) == row;
    assert created.users.rows[newId := row] == created.users.rows;
  }

  /** Replacing a group a second time with the same body leaves the tables as the first left them. */
  lemma GroupPutTwice(db: Database, id: Id, dto: GroupDto)
    requires Valid(db) && id in db.groups.rows && Transaction(db, ReplaceStmts(id, dto)).Ok?
    ensures var once := Transaction(db, ReplaceStmts(id, dto)).value;
            var twice := Transaction(once, ReplaceStmts(id, dto));
            twice.Ok? && SameTables(once, twice.value)
  {
    ReplaceTransaction(db, id, dto);
    var once := Transaction(db, ReplaceStmts(id, dto)).value;
    assert NameFree(once, id, Some(dto.displayName));
    ReplaceTransaction(once, id, dto);
    var twice := Transaction(once, ReplaceStmts(id, dto)).value;
    assert twice.groups.rows == once.groups.rows;
    forall u ensures u in MembersOf(once, id) <==> u in MemberIds(once.members, id) {}
    assert MembersOf(twice, id) == Elems(MemberIds(once.members, id));
    SameMembersSameTables(once, twice, id);
  }

  // ---------------------------------------------------------------- a representation used to create a copy

  /** The representation of a user recreates the row, but for the password, which is never sent, and an
      empty email address, which is not shown. */
  lemma UserCopy(id: Id, u: User, digest: string)
    ensures UserToCreate(UserPutBody(ToScimUser(id, u)), digest)
            == u.(passwordHash := None, email := if u.email == Some("") then None else u.email)
  {
  }

  lemma SameMembers(db: Database, db': Database, h: Id)
    requires forall u :: Member(h, u) in db'.members <==> Member(h, u) in db.members
    ensures MembersOf(db', h) == MembersOf(db, h)
  {
    forall u ensures u in MembersOf(db', h) <==> u in MembersOf(db, h) {
      MembersOfAt(db, h, u);
      MembersOfAt(db', h, u);
    }
  }

  lemma CreateReply(db: Database, newId: Id, dto: GroupDto)
    requires Valid(db) && newId !in db.groups.rows
    requires var t := GroupCreate(db, newId, GroupToCreate(dto), MemberList(dto)); t.Ok? && newId in t.value.groups.rows
    ensures var (db', reply) := Serial(db, newId, CreateGroup(dto));
            db' == GroupCreate(db, newId, GroupToCreate(dto), MemberList(dto)).value && reply.status == 201
  {
    CreateGroupCall(db, newId, dto);
  }

  lemma CreateWithMembersOf(db: Database, id: Id, newId: Id, dto: GroupDto)
    requires Valid(db) && id in db.groups.rows && newId !in db.groups.rows && !DisplayNameTaken(db, dto.displayName)
    requires MemberList(dto) == MemberIds(db.members, id)
    ensures var (db', reply) := Serial(db, newId, CreateGroup(dto));
      && reply.status == 201 && Valid(db')
      && db'.groups.rows == db.groups.rows[newId := GroupToCreate(dto)]
      && MembersOf(db', newId) == MembersOf(db, id) == MembersOf(db', id)
  {
    MemberRowsLive(db, id);
    CreateGroupEffect(db, newId, dto);
    CreateReply(db, newId, dto);
    SameMembers(db, GroupCreate(db, newId, GroupToCreate(dto), MemberList(dto)).value, id);
  }

  /** The representation of a group under a free name creates a group with the same members. */
  lemma GroupCopy(db: Database, id: Id, newId: Id, name: string)
    requires Valid(db) && id in db.groups.rows && newId !in db.groups.rows && !DisplayNameTaken(db, name)
    ensures var dto := GroupPutBody(ToScimGroup(db, id)).(displayName := name);
            var (db', reply) := Serial(db, newId, CreateGroup(dto));
      && reply.status == 201 && Valid(db')
      && db'.groups.rows == db.groups.rows[newId := Group(name, db.groups.rows[id].externalId)]
      && MembersOf(db', newId) == MembersOf(db, id) == MembersOf(db', id)
  {
    MemberRowsLive(db, id);
    EchoedMembers(db.users.rows, MemberIds(db.members, id));
    CreateWithMembersOf(db, id, newId, GroupPutBody(ToScimGroup(db, id)).(displayName := name));
  }

  // ---------------------------------------------------------------- the demo page's view of memberships

  /** `memberships.map(m => m.group.displayName)`; a row without a live group cannot be rendered. */
  function GroupNames(groups: map<Id, Group>, ids: seq<Id>): seq<string> {
    if ids == [] then []
    else (if ids[0] in groups then [groups[ids[0]].displayName] else []) + GroupNames(groups, ids[1..])
  }

  function DemoGroups(db: Database, u: Id): seq<string> {
    GroupNames(db.groups.rows, GroupIds(db.members, u))
  }

  lemma {:induction false} GroupNamesOf(groups: map<Id, Group>, ids: seq<Id>)
    requires forall g :: g in ids ==> g in groups
    ensures |GroupNames(groups, ids)| == |ids|
    ensures forall i :: 0 <= i < |ids| ==> GroupNames(groups, ids)[i] == groups[ids[i]].displayName
  {
    if ids != [] {
      GroupNamesOf(groups, ids[1..]);
    }
  }

  lemma {:induction false} GroupIdsNoDup(ms: seq<Member>, u: Id)
    requires NoDup(ms)
    ensures NoDup(GroupIds(ms, u))
  {
    if ms != [] {
      GroupIdsNoDup(ms[1..], u);
      if ms[0].userId == u {
        assert ms[0] == Member(ms[0].groupId, u);
        assert ms[0] !in ms[1..];
      }
    }
  }

  predicate ShowsMember(r: GroupResource, u: Id) {
    exists i :: 0 <= i < |r.members| && r.members[i].value == u
  }

  lemma ShownMembers(db: Database, g: Id, u: Id)
    requires Valid(db) && g in db.groups.rows
    ensures ShowsMember(ToScimGroup(db, g), u) <==> u in MemberIds(db.members, g)
  {
    MemberRowsLive(db, g);
    var ids := MemberIds(db.members, g);
    if u in ids {
      var i :| 0 <= i < |ids| && ids[i] == u;
      assert ToScimGroup(db, g).members[i].value == u;
    }
  }

  lemma ListedGroupsLive(db: Database, u: Id)
    requires Valid(db)
    ensures forall g :: g in GroupIds(db.members, u) ==> g in db.groups.rows
  {
    forall g | g in GroupIds(db.members, u) ensures g in db.groups.rows {
      assert Member(g, u) in db.members;
    }
  }

  /** A listed group shows its name, once. */
  lemma NamesOfListedGroups(groups: map<Id, Group>, ids: seq<Id>, name: string)
    requires forall g :: g in ids ==> g in groups
    requires NoDup(ids)
    requires forall g, h :: g in groups && h in groups && g != h ==> groups[g].displayName != groups[h].displayName
    ensures NoDup(GroupNames(groups, ids))
    ensures name in GroupNames(groups, ids) <==> exists g :: g in ids && groups[g].displayName == name
  {
    GroupNamesOf(groups, ids);
    var names := GroupNames(groups, ids);
    if name in names {
      var i :| 0 <= i < |ids| && names[i] == name;
      assert ids[i] in ids;
    }
    if g :| g in ids && groups[g].displayName == name {
      var i :| 0 <= i < |ids| && ids[i] == g;
      assert names[i] == name;
    }
  }

  lemma ListedByBoth(db: Database, g: Id, u: Id)
    requires Valid(db) && g in db.groups.rows
    ensures ShowsMember(ToScimGroup(db, g), u) <==> g in GroupIds(db.members, u)
  {
    ShownMembers(db, g, u);
  }

  /** The demo page lists for a user, each once, the names of exactly the groups whose SCIM representation
      lists the user. */
  lemma DemoViewIsConverse(db: Database, u: Id, name: string)
    requires Valid(db)
    ensures NoDup(DemoGroups(db, u))
    ensures name in DemoGroups(db, u) <==>
            exists g :: g in db.groups.rows && db.groups.rows[g].displayName == name && ShowsMember(ToScimGroup(db, g), u)
  {
    ListedGroupsLive(db, u);
    GroupIdsNoDup(db.members, u);
    NamesOfListedGroups(db.groups.rows, GroupIds(db.members, u), name);
    forall g | g in db.groups.rows ensures ShowsMember(ToScimGroup(db, g), u) <==> g in GroupIds(db.members, u) {
      ListedByBoth(db, g, u);
    }
  }

  // ---------------------------------------------------------------- a PATCH request from its operations to the tables

  /** A group patch that commits gives the membership of the compiled batch. That is the membership of the
      operations in order exactly when no added id has a remove as its last mention, and the attributes
      are always those of the operations in order. */
  lemma GroupPatchRequest(db: Database, id: Id, newId: Id, ops: seq<Json.PatchOp>)
    requires Valid(db) && id in db.groups.rows && GroupPatch.Compile(ops).Some?
    requires Serial(db, newId, PatchGroup(id, GroupPatch.Compile(ops).value)).1.status == 200
    ensures var db' := Serial(db, newId, PatchGroup(id, GroupPatch.Compile(ops).value)).0;
      && GroupPatch.Batch(MembersOf(db, id), ops) == Some(MembersOf(db', id))
      && (GroupPatch.InOrder(MembersOf(db, id), ops) == Some(MembersOf(db', id)) <==> GroupPatch.AddsStand(ops))
      && db'.groups.rows[id] == RowInOrder(db.groups.rows[id], ops)
      && OthersUntouched(db, db', id)
  {
    var p := GroupPatch.Compile(ops).value;
    assert GroupPatch.Typed(p);
    TransactionErrors(db, PatchStmts(id, p));
    PatchGroupCall(db, id, p);
    PatchTransaction(db, id, p);
    AttributesMeanInOrder(db.groups.rows[id], ops);
    GroupPatch.BatchIs(MembersOf(db, id), ops);
    GroupPatch.BatchMeansInOrder(MembersOf(db, id), ops);
  }

  /** A user patch that succeeds gives the row of the compiled update, which is the row of the operations
      in order for a faithful list. */
  lemma UserPatchRequest(db: Database, id: Id, newId: Id, ops: seq<Json.PatchOp>)
    requires id in db.users.rows && UserPatch.Compile(ops).Some?
    requires Serial(db, newId, PatchUser(id, UserPatch.Compile(ops).value)).1.status == 200
    ensures var db' := Serial(db, newId, PatchUser(id, UserPatch.Compile(ops).value)).0;
      && UserPatch.Batch(db.users.rows[id], ops) == Some(db'.users.rows[id])
      && (UserPatch.Faithful(ops) ==> UserPatch.InOrder(db.users.rows[id], ops) == Some(db'.users.rows[id]))
      && db'.groups == db.groups && db'.members == db.members
      && db'.users.rows == db.users.rows[id := db'.users.rows[id]]
  {
    UserPatch.BatchMeansInOrder(ops);
    assert UserPatch.Batch(db.users.rows[id], ops) ==
           UserPatch.UpdateRow(db.users.rows[id], UserPatch.Compile(ops).value);
  }
}

/** The calls of the group service against the serial specification, and what the specification keeps. */
module SerialCalls {
  import opened Prelude
  import opened Tables
  import opened Resources
  import opened Api
  import opened GroupStore
  import GroupPatch
  import UserPatch

  /** The answer to a rejected group write. */
  function GroupRejected(e: PrismaError): Reply {
    if e.P2002? then NAME_CONFLICT
    else if e.P2003? then BAD_REFERENCE
    else if e.P2025? then NOT_FOUND
    else SERVER_ERROR
  }

  /** What a group write and the reading after it amount to. */
  function Answered(db: Database, t: Outcome, status: int, id: Id): (Database, Reply) {
    match t
    case Err(e) => (db, GroupRejected(e))
    case Ok(db') => (db', GroupOk(db', status, id))
  }

  // ---------------------------------------------------------------- member lists

  /** A list is without fault exactly when its ids are distinct live users; otherwise the fault is that of
      the first id that repeats an earlier one or is no user. */
  lemma {:induction false} MemberFaultIs(users: map<Id, User>, us: seq<Id>, k: nat)
    requires k <= |us| && NoDup(us[..k]) && forall i :: 0 <= i < k ==> us[i] in users
    ensures MemberFault(users, us, k).None? <==> NoDup(us) && forall u :: u in us ==> u in users
    ensures MemberFault(users, us, k).Some? ==>
              exists j :: k <= j < |us| && NoDup(us[..j]) && (forall i :: 0 <= i < j ==> us[i] in users)
                          && (us[j] in us[..j] || us[j] !in users)
                          && (MemberFault(users, us, k).value == RepeatedMember <==> us[j] in us[..j])
    decreases |us| - k
  {
    if k == |us| {
      assert us[..k] == us;
    } else {
      assert us[..k + 1] == us[..k] + [us[k]];
      if us[k] in us[..k] || us[k] !in users {
        if us[k] in us[..k] {
          var i :| 0 <= i < k && us[..k][i] == us[k];
          assert us[i] == us[k];
        }
      } else {
        NoDupAppend(us[..k], us[k]);
        MemberFaultIs(users, us, k + 1);
      }
    }
  }

  lemma RowsStep(g: Id, us: seq<Id>, k: nat)
    requires k < |us|
    ensures Rows(g, us[..k + 1]) == Rows(g, us[..k]) + [Member(g, us[k])]
  {
  }

  lemma RowsHave(g: Id, us: seq<Id>, u: Id)
    ensures Member(g, u) in Rows(g, us) <==> u in us
  {
    if u in us {
      var i :| 0 <= i < |us| && us[i] == u;
      assert Rows(g, us)[i] == Member(g, u);
    }
  }

  /** The outcome of inserting a member list into a group without members. */
  function Inserted(db: Database, g: Id, us: seq<Id>, fault: Option<Fault>): Outcome {
    match fault
    case None => Ok(db.(members := db.members + Rows(g, us)))
    case Some(RepeatedMember) => Err(P2002)
    case Some(UnknownMember) => Err(P2003)
  }

  lemma {:induction false} InsertMembersIs(db: Database, g: Id, us: seq<Id>, k: nat)
    requires k <= |us| && g in db.groups.rows && forall m :: m in db.members ==> m.groupId != g
    ensures InsertMembers(db.(members := db.members + Rows(g, us[..k])), g, us[k..])
            == Inserted(db, g, us, MemberFault(db.users.rows, us, k))
    decreases |us| - k
  {
    var cur := db.(members := db.members + Rows(g, us[..k]));
    if k == |us| {
      assert us[..k] == us && us[k..] == [];
    } else {
      RowsHave(g, us[..k], us[k]);
      assert us[k..][0] == us[k] && us[k..][1..] == us[k + 1..];
      if us[k] !in us[..k] && us[k] in db.users.rows {
        RowsStep(g, us, k);
        assert cur.members + [Member(g, us[k])] == db.members + Rows(g, us[..k + 1]);
        InsertMembersIs(db, g, us, k + 1);
      }
    }
  }

  lemma InsertListIs(db: Database, g: Id, us: seq<Id>)
    requires g in db.groups.rows && forall m :: m in db.members ==> m.groupId != g
    ensures InsertMembers(db, g, us) == Inserted(db, g, us, MemberFault(db.users.rows, us, 0))
  {
    InsertMembersIs(db, g, us, 0);
    assert us[..0] == [] && us[0..] == us && Rows(g, []) == [];
    assert db.members + [] == db.members;
  }

  // ---------------------------------------------------------------- create and replace

  lemma CreateGroupCall(db: Database, newId: Id, dto: GroupDto)
    requires Valid(db) && newId !in db.groups.rows
    ensures Answered(db, GroupCreate(db, newId, GroupToCreate(dto), MemberList(dto)), 201, newId)
            == SerialCreateGroup(db, newId, dto)
  {
    InsertListIs(db.(groups := InsertRow(db.groups, newId, GroupToCreate(dto))), newId, MemberList(dto));
  }

  lemma ReplaceGroupCall(db: Database, id: Id, dto: GroupDto)
    requires id in db.groups.rows
    ensures Answered(db, Transaction(db, ReplaceStmts(id, dto)), 200, id) == SerialReplaceGroup(db, id, dto)
  {
    var db1 := Exec(db, DeleteMembersOf(id)).value;
    var row := Group(dto.displayName, Updated(db.groups.rows[id].externalId, AsChange(dto.externalId)));
    ReplaceIsUpdate(db, id, dto);
    assert DisplayNameTakenByOther(db1, id, dto.displayName) <==> DisplayNameTakenByOther(db, id, dto.displayName);
    InsertListIs(db1.(groups := SetRow(db1.groups, id, row)), id, MemberList(dto));
  }

  // ---------------------------------------------------------------- patch

  lemma {:induction false} DeletesAre(db: Database, g: Id, us: seq<Id>)
    ensures Transaction(db, Deletes(g, us)) == Ok(db.(members := WithoutListed(db.members, g, us)))
    decreases |us|
  {
    if us == [] {
      KeepAll(db.members, (m: Member) => !(m.groupId == g && m.userId in us));
    } else {
      var db1 := Exec(db, DeleteMember(g, us[0])).value;
      assert Deletes(g, us)[1..] == Deletes(g, us[1..]);
      DeletesAre(db1, g, us[1..]);
      assert forall u :: u in us <==> u == us[0] || u in us[1..];
      KeepKeep(db.members, m => m != Member(g, us[0]), (m: Member) => !(m.groupId == g && m.userId in us[1..]),
                (m: Member) => !(m.groupId == g && m.userId in us));
    }
  }

  lemma {:induction false} UpsertsAre(db: Database, g: Id, us: seq<Id>)
    requires MembersLive(db) && g in db.groups.rows
    ensures Transaction(db, Upserts(g, us)) ==
            if AllLive(db, us) then Ok(db.(members := WithListed(db.members, g, us))) else Err(P2003)
    decreases |us|
  {
    if us != [] {
      assert Upserts(g, us)[1..] == Upserts(g, us[1..]);
      assert forall u :: u in us <==> u == us[0] || u in us[1..];
      if Exec(db, UpsertMember(g, us[0])).Ok? {
        UpsertsAre(Exec(db, UpsertMember(g, us[0])).value, g, us[1..]);
      }
    }
  }

  lemma AttributesAre(db: Database, g: Id, p: GroupPatch.Patch)
    requires Valid(db) && g in db.groups.rows
    ensures Transaction(db, AttributeStmts(g, p)) ==
            if NameFree(db, g, p.displayName) then Ok(db.(groups := SetRow(db.groups, g, PatchedRow(db.groups.rows[g], p))))
            else Err(P2002)
  {
    AttributeEffect(db, g, p);
  }

  lemma PatchGroupCall(db: Database, id: Id, p: GroupPatch.Patch)
    requires Valid(db) && id in db.groups.rows && GroupPatch.Typed(p)
    ensures Answered(db, Transaction(db, PatchStmts(id, p)), 200, id) == SerialPatchGroup(db, id, p)
  {
    var removes, adds := GroupPatch.Ids(p.removeIds), GroupPatch.Ids(p.addIds);
    var a, d, u := AttributeStmts(id, p), Deletes(id, removes), Upserts(id, adds);
    TransactionConcat(db, a + d, u);
    TransactionConcat(db, a, d);
    AttributesAre(db, id, p);
    if NameFree(db, id, p.displayName) {
      var db1 := db.(groups := SetRow(db.groups, id, PatchedRow(db.groups.rows[id], p)));
      DeletesAre(db1, id, removes);
      var db2 := db1.(members := WithoutListed(db1.members, id, removes));
      UpsertsAre(db2, id, adds);
      assert AllLive(db2, adds) <==> !exists x :: x in adds && x !in db.users.rows;
    }
  }

  // ---------------------------------------------------------------- what every request keeps

  /** Neither id is in use. */
  predicate IdUnused(db: Database, id: Id) {
    id !in db.users.rows && id !in db.groups.rows
  }

  lemma SerialUpdateUserValid(db: Database, id: Id, data: Option<UserUpdate>)
    requires Valid(db)
    ensures Valid(SerialUpdateUser(db, id, data).0)
  {
    if data.Some? {
      UserUpdateValid(db, id, data.value);
    }
  }

  lemma SerialGroupValid(db: Database, newId: Id, req: Request)
    requires Valid(db) && (req.CreateGroup? ==> IdUnused(db, newId))
    requires req.CreateGroup? || req.ReplaceGroup? || req.PatchGroup? || req.RemoveGroup?
    ensures Valid(Serial(db, newId, req).0)
  {
    match req
    case CreateGroup(dto) =>
      CreateGroupCall(db, newId, dto);
      GroupCreateValid(db, newId, GroupToCreate(dto), MemberList(dto));
    case ReplaceGroup(id, dto) =>
      if id in db.groups.rows {
        ReplaceGroupCall(db, id, dto);
        TransactionValid(db, ReplaceStmts(id, dto));
      }
    case PatchGroup(id, p) =>
      if id in db.groups.rows && GroupPatch.Typed(p) {
        PatchGroupCall(db, id, p);
        TransactionValid(db, PatchStmts(id, p));
      }
    case RemoveGroup(id) => GroupDeleteValid(db, id);
  }

  /** Every request keeps the schema's constraints. */
  lemma SerialValid(db: Database, newId: Id, req: Request)
    requires Valid(db) && (req.CreateUser? || req.CreateGroup? ==> IdUnused(db, newId))
    ensures Valid(Serial(db, newId, req).0)
  {
    match req
    case CreateUser(dto, digest) => UserCreateValid(db, newId, UserToCreate(dto, digest));
    case ReplaceUser(id, dto, digest) => SerialUpdateUserValid(db, id, Some(UserToReplace(dto, digest)));
    case PatchUser(id, fields) => SerialUpdateUserValid(db, id, UserPatch.ToUpdate(fields));
    case RemoveUser(id) => UserDeleteValid(db, id);
    case ClearData =>
    case _ => SerialGroupValid(db, newId, req);
  }

  /** A request that does not succeed changes nothing. */
  lemma SerialAllOrNothing(db: Database, newId: Id, req: Request)
    ensures Serial(db, newId, req).1.status !in {200, 201, 204} ==> Serial(db, newId, req).0 == db
  {
  }
}

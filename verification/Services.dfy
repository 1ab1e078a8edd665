/** UsersService, GroupsService and the wipe of DemoController as written: a sequence of database calls
    per request. Run alone, each request does and answers what the serial API says. */
module Services {
  import opened Prelude
  import opened Tables
  import opened Resources
  import opened ScimErrors
  import opened Api
  import opened SerialCalls
  import GroupPatch
  import opened GroupStore
  import UserPatch

  /** The database behind the Prisma client. A failed call leaves it as it was. */
  class PrismaService {
    var db: Database

    constructor ()
      ensures db == EMPTY_DATABASE && Valid(db)
    {
      db := EMPTY_DATABASE;
    }

    method Commit(outcome: Outcome) returns (error: Option<PrismaError>)
      modifies this
      ensures db == if outcome.Ok? then outcome.value else old(db)
      ensures error == if outcome.Err? then Some(outcome.error) else None
    {
      match outcome {
        case Ok(db') => db := db'; error := None;
        case Err(e) => error := Some(e);
      }
    }

    /** `$transaction`: the statements one by one, back to the saved tables at the first failure. */
    method RunTransaction(stmts: seq<Stmt>) returns (error: Option<PrismaError>)
      modifies this
      ensures match Transaction(old(db), stmts)
              case Ok(db') => db == db' && error == None
              case Err(e) => db == old(db) && error == Some(e)
    {
      var saved := db;
      for i := 0 to |stmts|
        invariant Transaction(db, stmts[i..]) == Transaction(saved, stmts)
      {
        assert stmts[i..][1..] == stmts[i + 1..];
        error := Commit(Exec(db, stmts[i]));
        if error.Some? {
          db := saved;
          return;
        }
      }
      return None;
    }
  }

  /** The answer to a rejected database call. */
  function Rejected(error: Option<PrismaError>): Response {
    match error
    case None => Thrown(Unexpected)
    case Some(code) => Thrown(PrismaFailure(code))
  }

  class UsersService {
    const prisma: PrismaService

    constructor (prisma: PrismaService)
      ensures this.prisma == prisma
    {
      this.prisma := prisma;
    }

    method Create(dto: UserDto, digest: string, newId: Id) returns (r: Response)
      requires Valid(prisma.db) && IdUnused(prisma.db, newId)
      modifies prisma
      ensures (prisma.db, View(r)) == Serial(old(prisma.db), newId, CreateUser(dto, digest))
      ensures Valid(prisma.db)
    {
      SerialValid(prisma.db, newId, CreateUser(dto, digest));
      if UserNameTaken(prisma.db, dto.userName) {
        return Thrown(ConflictException("User with userName " + dto.userName + " already exists"));
      }
      var row := UserToCreate(dto, digest);
      var error := prisma.Commit(UserCreate(prisma.db, newId, row));
      if error.Some? { return Rejected(error); }
      return Success(201, UserBody(ToScimUser(newId, row)));
    }

    method Replace(id: Id, dto: UserDto, digest: string) returns (r: Response)
      requires Valid(prisma.db)
      modifies prisma
      ensures (prisma.db, View(r)) == Serial(old(prisma.db), "", ReplaceUser(id, dto, digest))
      ensures Valid(prisma.db)
    {
      SerialValid(prisma.db, "", ReplaceUser(id, dto, digest));
      if id !in prisma.db.users.rows {
        return Thrown(NotFoundException("User " + id + " not found"));
      }
      var error := prisma.Commit(UserUpdateCall(prisma.db, id, UserToReplace(dto, digest)));
      if error.Some? { return Rejected(error); }
      return Success(200, UserBody(ToScimUser(id, prisma.db.users.rows[id])));
    }

    method Patch(id: Id, fields: UserPatch.Fields) returns (r: Response)
      requires Valid(prisma.db)
      modifies prisma
      ensures (prisma.db, View(r)) == Serial(old(prisma.db), "", PatchUser(id, fields))
      ensures Valid(prisma.db)
    {
      SerialValid(prisma.db, "", PatchUser(id, fields));
      if id !in prisma.db.users.rows {
        return Thrown(NotFoundException("User " + id + " not found"));
      }
      var data := UserPatch.ToUpdate(fields);
      if data.None? { return Thrown(PrismaFailure(Validation)); }
      var error := prisma.Commit(UserUpdateCall(prisma.db, id, data.value));
      if error.Some? { return Rejected(error); }
      return Success(200, UserBody(ToScimUser(id, prisma.db.users.rows[id])));
    }

    method Remove(id: Id) returns (r: Response)
      requires Valid(prisma.db)
      modifies prisma
      ensures (prisma.db, View(r)) == Serial(old(prisma.db), "", RemoveUser(id))
      ensures Valid(prisma.db)
    {
      SerialValid(prisma.db, "", RemoveUser(id));
      if id !in prisma.db.users.rows {
        return Thrown(NotFoundException("User " + id + " not found"));
      }
      var error := prisma.Commit(UserDelete(prisma.db, id));
      if error.Some? { return Rejected(error); }
      return Success(204, NoBody);
    }
  }

  class GroupsService {
    const prisma: PrismaService

    constructor (prisma: PrismaService)
      ensures this.prisma == prisma
    {
      this.prisma := prisma;
    }

    method FindById(id: Id) returns (r: Response)
      ensures View(r) == GroupOk(prisma.db, 200, id)
      ensures r.Success? <==> id in prisma.db.groups.rows
    {
      if id !in prisma.db.groups.rows {
        return Thrown(NotFoundException("Group " + id + " not found"));
      }
      return Success(200, GroupBody(ToScimGroup(prisma.db, id)));
    }

    method Create(dto: GroupDto, newId: Id) returns (r: Response)
      requires Valid(prisma.db) && IdUnused(prisma.db, newId)
      modifies prisma
      ensures (prisma.db, View(r)) == Serial(old(prisma.db), newId, CreateGroup(dto))
      ensures Valid(prisma.db)
    {
      SerialValid(prisma.db, newId, CreateGroup(dto));
      if DisplayNameTaken(prisma.db, dto.displayName) {
        return Thrown(ConflictException("Group with displayName " + dto.displayName + " already exists"));
      }
      InsertMembersKeepsGroups(prisma.db.(groups := InsertRow(prisma.db.groups, newId, GroupToCreate(dto))), newId,
                               MemberList(dto));
      CreateErrors(prisma.db, newId, dto);
      CreateGroupCall(prisma.db, newId, dto);
      var error := prisma.Commit(GroupCreate(prisma.db, newId, GroupToCreate(dto), MemberList(dto)));
      if error.Some? { return Rejected(error); }
      return Success(201, GroupBody(ToScimGroup(prisma.db, newId)));
    }

    method Replace(id: Id, dto: GroupDto) returns (r: Response)
      requires Valid(prisma.db)
      modifies prisma
      ensures (prisma.db, View(r)) == Serial(old(prisma.db), "", ReplaceGroup(id, dto))
      ensures Valid(prisma.db)
    {
      SerialValid(prisma.db, "", ReplaceGroup(id, dto));
      r := FindById(id);
      if r.Failure? { return; }
      TransactionErrors(prisma.db, ReplaceStmts(id, dto));
      ReplaceGroupCall(prisma.db, id, dto);
      var error := prisma.RunTransaction(ReplaceStmts(id, dto));
      if error.Some? { return Rejected(error); }
      r := FindById(id);
    }

    /** The two loops that fill the `operations` array, after the optional attribute update. */
    method BuildOperations(id: Id, p: GroupPatch.Patch) returns (operations: seq<Stmt>)
      requires GroupPatch.Typed(p)
      ensures operations == PatchStmts(id, p)
    {
      operations := [];
      if p.displayName.Some? || p.externalId.Some? {
        operations := operations + [UpdateGroup(id, NameChange(p.displayName), ExternalIdChange(p.externalId), [])];
      }
      ghost var attributes := operations;
      assert attributes == AttributeStmts(id, p);
      var removes := GroupPatch.Ids(p.removeIds);
      for i := 0 to |removes|
        invariant operations + Deletes(id, removes[i..]) == attributes + Deletes(id, removes)
      {
        assert removes[i..][1..] == removes[i + 1..];
        operations := operations + [DeleteMember(id, removes[i])];
      }
      assert removes[|removes|..] == [];
      ghost var deletes := operations;
      assert deletes == attributes + Deletes(id, removes);
      var adds := GroupPatch.Ids(p.addIds);
      for i := 0 to |adds|
        invariant operations + Upserts(id, adds[i..]) == deletes + Upserts(id, adds)
      {
        assert adds[i..][1..] == adds[i + 1..];
        operations := operations + [UpsertMember(id, adds[i])];
      }
      assert adds[|adds|..] == [];
    }

    method Patch(id: Id, p: GroupPatch.Patch) returns (r: Response)
      requires Valid(prisma.db)
      modifies prisma
      ensures (prisma.db, View(r)) == Serial(old(prisma.db), "", PatchGroup(id, p))
      ensures Valid(prisma.db)
    {
      SerialValid(prisma.db, "", PatchGroup(id, p));
      r := FindById(id);
      if r.Failure? { return; }
      if !GroupPatch.Typed(p) { return Thrown(PrismaFailure(Validation)); }
      var operations := BuildOperations(id, p);
      PatchGroupCall(prisma.db, id, p);
      if |operations| > 0 {
        TransactionErrors(prisma.db, operations);
        var error := prisma.RunTransaction(operations);
        if error.Some? { return Rejected(error); }
      }
      r := FindById(id);
    }

    method Remove(id: Id) returns (r: Response)
      requires Valid(prisma.db)
      modifies prisma
      ensures (prisma.db, View(r)) == Serial(old(prisma.db), "", RemoveGroup(id))
      ensures Valid(prisma.db)
    {
      SerialValid(prisma.db, "", RemoveGroup(id));
      if id !in prisma.db.groups.rows {
        return Thrown(NotFoundException("Group " + id + " not found"));
      }
      var error := prisma.Commit(GroupDelete(prisma.db, id));
      if error.Some? { return Rejected(error); }
      return Success(204, NoBody);
    }
  }

  class DemoController {
    const prisma: PrismaService

    constructor (prisma: PrismaService)
      ensures this.prisma == prisma
    {
      this.prisma := prisma;
    }

    /** Three separate calls; alone they leave nothing. */
    method Clear() returns (r: Response)
      modifies prisma
      ensures (prisma.db, View(r)) == Serial(old(prisma.db), "", ClearData)
      ensures Valid(prisma.db)
    {
      prisma.db := WipeMembers(prisma.db);
      prisma.db := WipeUsers(prisma.db);
      prisma.db := WipeGroups(prisma.db);
      return Success(204, NoBody);
    }
  }
}

/** The provisioning API as a client sees it when requests run one at a time: what each request does to
    the tables and what it answers. No database error appears here; the services are proved against it. */
module Api {
  import opened Prelude
  import opened Tables
  import opened Resources
  import opened ScimErrors
  import GroupPatch
  import UserPatch

  /** `digest` is the bcrypt hash computed for the request. Patches are already compiled. */
  datatype Request =
    | CreateUser(user: UserDto, digest: string)
    | ReplaceUser(id: Id, user: UserDto, digest: string)
    | PatchUser(id: Id, fields: UserPatch.Fields)
    | RemoveUser(id: Id)
    | CreateGroup(group: GroupDto)
    | ReplaceGroup(id: Id, group: GroupDto)
    | PatchGroup(id: Id, patch: GroupPatch.Patch)
    | RemoveGroup(id: Id)
    | ClearData

  datatype Body = NoBody | UserBody(user: UserResource) | GroupBody(group: GroupResource)

  /** What the source sends: a body, or a SCIM error. */
  datatype Response = Success(status: int, body: Body) | Failure(error: ScimError)

  /** What a client can act on: the status, the scimType and the resource, but not the error prose. */
  datatype Reply = Reply(status: int, scimType: Option<string>, body: Body)

  function View(r: Response): Reply {
    match r
    case Success(status, body) => Reply(status, None, body)
    case Failure(e) => Reply(e.status, e.scimType, NoBody)
  }

  function Thrown(e: Exception): Response {
    Failure(ToScimError(e))
  }

  const NOT_FOUND := Reply(404, None, NoBody)
  const NAME_CONFLICT := Reply(409, Some("uniqueness"), NoBody)
  const BAD_REFERENCE := Reply(400, Some("invalidValue"), NoBody)
  const SERVER_ERROR := Reply(500, None, NoBody)

  // ---------------------------------------------------------------- users

  function SerialCreateUser(db: Database, newId: Id, dto: UserDto, digest: string): (Database, Reply) {
    if UserNameTaken(db, dto.userName) then (db, NAME_CONFLICT)
    else
      var row := UserToCreate(dto, digest);
      (db.(users := InsertRow(db.users, newId, row)), Reply(201, None, UserBody(ToScimUser(newId, row))))
  }

  /** Both ways of changing a user; `data` is None for a value of the wrong type. */
  function SerialUpdateUser(db: Database, id: Id, data: Option<UserUpdate>): (Database, Reply) {
    if id !in db.users.rows then (db, NOT_FOUND)
    else if data.None? then (db, SERVER_ERROR)
    else
      var row := UpdatedUser(db.users.rows[id], data.value);
      if UserNameTakenByOther(db, id, row.userName) then (db, NAME_CONFLICT)
      else (db.(users := SetRow(db.users, id, row)), Reply(200, None, UserBody(ToScimUser(id, row))))
  }

  function SerialRemoveUser(db: Database, id: Id): (Database, Reply) {
    if id !in db.users.rows then (db, NOT_FOUND)
    else (db.(users := DropRow(db.users, id), members := Keep(db.members, (m: Member) => m.userId != id)),
          Reply(204, None, NoBody))
  }

  // ---------------------------------------------------------------- groups

  /** What reading a group answers. */
  function GroupOk(db: Database, status: int, id: Id): Reply {
    if id in db.groups.rows then Reply(status, None, GroupBody(ToScimGroup(db, id))) else NOT_FOUND
  }

  datatype Fault = RepeatedMember | UnknownMember

  /** What is wrong with the first faulty id at or after position `k` of a member list. */
  function MemberFault(users: map<Id, User>, us: seq<Id>, k: nat): Option<Fault>
    requires k <= |us|
    decreases |us| - k
  {
    if k == |us| then None
    else if us[k] in us[..k] then Some(RepeatedMember)
    else if us[k] !in users then Some(UnknownMember)
    else MemberFault(users, us, k + 1)
  }

  function FaultReply(f: Fault): Reply {
    match f
    case RepeatedMember => NAME_CONFLICT
    case UnknownMember => BAD_REFERENCE
  }

  function Rows(g: Id, us: seq<Id>): seq<Member> {
    seq(|us|, i requires 0 <= i < |us| => Member(g, us[i]))
  }

  /** The rows without those of the listed members of `g`. */
  function WithoutListed(ms: seq<Member>, g: Id, us: seq<Id>): seq<Member> {
    Keep(ms, (m: Member) => !(m.groupId == g && m.userId in us))
  }

  /** The rows with one for each listed member of `g`, new ones at the end. */
  function WithListed(ms: seq<Member>, g: Id, us: seq<Id>): seq<Member>
    decreases |us|
  {
    if us == [] then ms
    else WithListed(if Member(g, us[0]) in ms then ms else ms + [Member(g, us[0])], g, us[1..])
  }

  /** A group of a free name with distinct live members, or 409 or 400 by the first faulty member. */
  function SerialCreateGroup(db: Database, newId: Id, dto: GroupDto): (Database, Reply) {
    var us := MemberList(dto);
    var fault := MemberFault(db.users.rows, us, 0);
    if DisplayNameTaken(db, dto.displayName) then (db, NAME_CONFLICT)
    else if fault.Some? then (db, FaultReply(fault.value))
    else
      var db' := Database(db.users, InsertRow(db.groups, newId, GroupToCreate(dto)), db.members + Rows(newId, us));
      (db', GroupOk(db', 201, newId))
  }

  /** The group gets the name, the external id when one is sent, and exactly the listed members. */
  function SerialReplaceGroup(db: Database, id: Id, dto: GroupDto): (Database, Reply) {
    var us := MemberList(dto);
    var fault := MemberFault(db.users.rows, us, 0);
    if id !in db.groups.rows then (db, NOT_FOUND)
    else if DisplayNameTakenByOther(db, id, dto.displayName) then (db, NAME_CONFLICT)
    else if fault.Some? then (db, FaultReply(fault.value))
    else
      var row := Group(dto.displayName, Updated(db.groups.rows[id].externalId, AsChange(dto.externalId)));
      var db' := Database(db.users, SetRow(db.groups, id, row),
                          Keep(db.members, (m: Member) => m.groupId != id) + Rows(id, us));
      (db', GroupOk(db', 200, id))
  }

  /** The given attributes change, the removed members go and the added ones, if all are users, are in. */
  function SerialPatchGroup(db: Database, id: Id, p: GroupPatch.Patch): (Database, Reply) {
    if id !in db.groups.rows then (db, NOT_FOUND)
    else if !GroupPatch.Typed(p) then (db, SERVER_ERROR)
    else if p.displayName.Some? && DisplayNameTakenByOther(db, id, p.displayName.value) then (db, NAME_CONFLICT)
    else if exists u :: u in GroupPatch.Ids(p.addIds) && u !in db.users.rows then (db, BAD_REFERENCE)
    else
      var row := db.groups.rows[id];
      var row' := Group(if p.displayName.Some? then p.displayName.value else row.displayName,
                        if p.externalId.Some? then p.externalId else row.externalId);
      var kept := WithoutListed(db.members, id, GroupPatch.Ids(p.removeIds));
      var db' := Database(db.users, SetRow(db.groups, id, row'), WithListed(kept, id, GroupPatch.Ids(p.addIds)));
      (db', GroupOk(db', 200, id))
  }

  function SerialRemoveGroup(db: Database, id: Id): (Database, Reply) {
    if id !in db.groups.rows then (db, NOT_FOUND)
    else (db.(groups := DropRow(db.groups, id), members := Keep(db.members, (m: Member) => m.groupId != id)),
          Reply(204, None, NoBody))
  }

  /** One request on its own; `newId` is the id a created row gets. */
  function Serial(db: Database, newId: Id, req: Request): (Database, Reply) {
    match req
    case CreateUser(dto, digest) => SerialCreateUser(db, newId, dto, digest)
    case ReplaceUser(id, dto, digest) => SerialUpdateUser(db, id, Some(UserToReplace(dto, digest)))
    case PatchUser(id, fields) => SerialUpdateUser(db, id, UserPatch.ToUpdate(fields))
    case RemoveUser(id) => SerialRemoveUser(db, id)
    case CreateGroup(dto) => SerialCreateGroup(db, newId, dto)
    case ReplaceGroup(id, dto) => SerialReplaceGroup(db, id, dto)
    case PatchGroup(id, p) => SerialPatchGroup(db, id, p)
    case RemoveGroup(id) => SerialRemoveGroup(db, id)
    case ClearData => (EMPTY_DATABASE, Reply(204, None, NoBody))
  }
}

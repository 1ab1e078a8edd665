/** The request bodies (dto files) and the resources that toScimUser and toScimGroup produce. */
module Resources {
  import opened Prelude
  import opened Tables

  /** An optional JSON field: left out, `null`, or a value. IsOptional lets the first two through. */
  datatype Field<+T> = Missing | Null | Given(value: T)

  datatype NameDto = NameDto(givenName: Field<string>, familyName: Field<string>)

  /** `emails` holds the `value` field of each entry. */
  datatype UserDto = UserDto(
    userName: string,
    externalId: Field<string>,
    name: Field<NameDto>,
    emails: Field<seq<Field<string>>>,
    active: Field<bool>,
    password: Field<string>)

  /** `members` holds the `value` field of each entry. */
  datatype GroupDto = GroupDto(displayName: string, externalId: Field<string>, members: Field<seq<Id>>)

  /** dto.name?.givenName */
  function GivenName(dto: UserDto): Field<string> {
    if dto.name.Given? then dto.name.value.givenName else Missing
  }

  function FamilyName(dto: UserDto): Field<string> {
    if dto.name.Given? then dto.name.value.familyName else Missing
  }

  /** dto.emails?.[0]?.value */
  function FirstEmail(dto: UserDto): Field<string> {
    if dto.emails.Given? && dto.emails.value != [] then dto.emails.value[0] else Missing
  }

  /** dto.active ?? true */
  function ActiveOrTrue(dto: UserDto): bool {
    if dto.active.Given? then dto.active.value else true
  }

  /** dto.password ? hash : nothing; `digest` is what bcrypt returns for this request. */
  function PasswordDigest(dto: UserDto, digest: string): Option<string> {
    if dto.password.Given? && dto.password.value != "" then Some(digest) else None
  }

  /** dto.members ?? [] */
  function MemberList(dto: GroupDto): seq<Id> {
    if dto.members.Given? then dto.members.value else []
  }

  /** The column a created row gets: `undefined` and `null` both store NULL. */
  function AsColumn(f: Field<string>): Option<string> {
    if f.Given? then Some(f.value) else None
  }

  /** The change an update makes: `undefined` leaves the column, `null` stores NULL. */
  function AsChange(f: Field<string>): Change<Option<string>> {
    match f
    case Missing => Leave
    case Null => Put(None)
    case Given(v) => Put(Some(v))
  }

  function UserToCreate(dto: UserDto, digest: string): User {
    User(dto.userName, AsColumn(dto.externalId), AsColumn(GivenName(dto)), AsColumn(FamilyName(dto)),
         AsColumn(FirstEmail(dto)), ActiveOrTrue(dto), PasswordDigest(dto, digest))
  }

  function UserToReplace(dto: UserDto, digest: string): UserUpdate {
    var hash := PasswordDigest(dto, digest);
    UserUpdate(Put(dto.userName), AsChange(dto.externalId), AsChange(GivenName(dto)), AsChange(FamilyName(dto)),
               AsChange(FirstEmail(dto)), Put(ActiveOrTrue(dto)),
               if hash.Some? && hash.value != "" then Put(hash) else Leave)
  }

  function GroupToCreate(dto: GroupDto): Group {
    Group(dto.displayName, AsColumn(dto.externalId))
  }

  /** The two statements of GroupsService.replace. */
  function ReplaceStmts(g: Id, dto: GroupDto): seq<Stmt> {
    [DeleteMembersOf(g), UpdateGroup(g, Put(dto.displayName), AsChange(dto.externalId), MemberList(dto))]
  }

  // ---------------------------------------------------------------- resources

  datatype UserResource = UserResource(
    id: Id,
    externalId: Option<string>,
    userName: string,
    givenName: Option<string>,
    familyName: Option<string>,
    emails: seq<string>,
    active: bool)

  datatype MemberRef = MemberRef(value: Id, display: string)

  datatype GroupResource = GroupResource(
    id: Id, externalId: Option<string>, displayName: string, members: seq<MemberRef>)

  function ToScimUser(id: Id, u: User): UserResource {
    UserResource(id, u.externalId, u.userName, u.givenName, u.familyName,
                 if u.email.Some? && u.email.value != "" then [u.email.value] else [], u.active)
  }

  /** The `user` include of a member row; a row without a live user cannot be rendered. */
  function MemberRefs(users: map<Id, User>, ids: seq<Id>): (r: seq<MemberRef>)
    ensures (forall u :: u in ids ==> u in users) ==> |r| == |ids| && forall i :: 0 <= i < |r| ==> r[i].value == ids[i]
  {
    if ids == [] then []
    else (if ids[0] in users then [MemberRef(ids[0], users[ids[0]].userName)] else []) + MemberRefs(users, ids[1..])
  }

  function ToScimGroup(db: Database, id: Id): GroupResource
    requires id in db.groups.rows
  {
    var g := db.groups.rows[id];
    GroupResource(id, g.externalId, g.displayName, MemberRefs(db.users.rows, MemberIds(db.members, id)))
  }

  // ---------------------------------------------------------------- a resource sent back as a PUT body

  /** A JSON field whose `undefined` was dropped by the serializer. */
  function Echo(v: Option<string>): Field<string> {
    if v.Some? then Given(v.value) else Missing
  }

  function UserPutBody(r: UserResource): UserDto {
    UserDto(r.userName, Echo(r.externalId), Given(NameDto(Echo(r.givenName), Echo(r.familyName))),
            Given(seq(|r.emails|, i requires 0 <= i < |r.emails| => Given(r.emails[i]))), Given(r.active), Missing)
  }

  function GroupPutBody(r: GroupResource): GroupDto {
    GroupDto(r.displayName, Echo(r.externalId),
             Given(seq(|r.members|, i requires 0 <= i < |r.members| => r.members[i].value)))
  }
}

/** The three tables of prisma/schema.prisma and the database calls the services make on them.
    Every call is atomic: it returns the new database, or an error and no new database. */
module Tables {
  import opened Prelude

  type Id = string

  /** A row of scim_users (the `raw` column and the timestamps are not modelled). */
  datatype User = User(
    userName: string,
    externalId: Option<string>,
    givenName: Option<string>,
    familyName: Option<string>,
    email: Option<string>,
    active: bool,
    passwordHash: Option<string>)

  /** A row of scim_groups. */
  datatype Group = Group(displayName: string, externalId: Option<string>)

  /** A row of scim_group_members. */
  datatype Member = Member(groupId: Id, userId: Id)

  /** A table keyed by id; `order` lists the ids by increasing createdAt. */
  datatype Table<T> = Table(order: seq<Id>, rows: map<Id, T>)

  datatype Database = Database(users: Table<User>, groups: Table<Group>, members: seq<Member>)

  const EMPTY_DATABASE := Database(Table([], map[]), Table([], map[]), [])

  /** The error codes a call can fail with. `Validation` is Prisma's rejection of a value that
      does not have the column's type; it is not one of the known request errors. */
  datatype PrismaError = P2002 | P2003 | P2023 | P2025 | OtherCode(code: string) | Validation

  type Outcome = Result<Database, PrismaError>

  /** A field of an update record: `undefined` leaves the column alone. */
  datatype Change<+T> = Leave | Put(value: T)

  function Updated<T>(before: T, c: Change<T>): T {
    if c.Put? then c.value else before
  }

  datatype UserUpdate = UserUpdate(
    userName: Change<string>,
    externalId: Change<Option<string>>,
    givenName: Change<Option<string>>,
    familyName: Change<Option<string>>,
    email: Change<Option<string>>,
    active: Change<bool>,
    passwordHash: Change<Option<string>>)

  function UpdatedUser(row: User, data: UserUpdate): User {
    User(Updated(row.userName, data.userName),
         Updated(row.externalId, data.externalId),
         Updated(row.givenName, data.givenName),
         Updated(row.familyName, data.familyName),
         Updated(row.email, data.email),
         Updated(row.active, data.active),
         Updated(row.passwordHash, data.passwordHash))
  }

  // ---------------------------------------------------------------- integrity

  ghost predicate TableOk<T>(t: Table<T>) {
    && NoDup(t.order)
    && (forall id :: id in t.order <==> id in t.rows)
  }

  ghost predicate UniqueUserNames(t: Table<User>) {
    forall a, b :: a in t.rows && b in t.rows && a != b ==> t.rows[a].userName != t.rows[b].userName
  }

  ghost predicate UniqueDisplayNames(t: Table<Group>) {
    forall a, b :: a in t.rows && b in t.rows && a != b ==> t.rows[a].displayName != t.rows[b].displayName
  }

  /** Every membership row refers to a live group and a live user. */
  ghost predicate MembersLive(db: Database) {
    forall m :: m in db.members ==> m.groupId in db.groups.rows && m.userId in db.users.rows
  }

  /** The constraints of the schema: unique names, unique (group, user) pairs, foreign keys. */
  ghost predicate Valid(db: Database) {
    && TableOk(db.users)
    && TableOk(db.groups)
    && UniqueUserNames(db.users)
    && UniqueDisplayNames(db.groups)
    && NoDup(db.members)
    && MembersLive(db)
  }

  // ---------------------------------------------------------------- rows

  function InsertRow<T>(t: Table<T>, id: Id, row: T): Table<T> {
    Table(t.order + [id], t.rows[id := row])
  }

  function SetRow<T>(t: Table<T>, id: Id, row: T): Table<T> {
    t.(rows := t.rows[id := row])
  }

  function DropRow<T>(t: Table<T>, id: Id): Table<T> {
    Table(Keep(t.order, x => x != id), t.rows - {id})
  }

  lemma InsertRowOk<T>(t: Table<T>, id: Id, row: T)
    requires TableOk(t) && id !in t.rows
    ensures TableOk(InsertRow(t, id, row))
  {
    NoDupAppend(t.order, id);
  }

  lemma DropRowOk<T>(t: Table<T>, id: Id)
    requires TableOk(t)
    ensures TableOk(DropRow(t, id))
  {
    KeepNoDup(t.order, x => x != id);
  }

  // ---------------------------------------------------------------- users

  /** findUnique({ where: { userName } }) finds a row. */
  predicate UserNameTaken(db: Database, name: string) {
    exists id :: id in db.users.rows && db.users.rows[id].userName == name
  }

  /** A row other than `id` holds `name`. */
  predicate UserNameTakenByOther(db: Database, id: Id, name: string) {
    exists o :: o in db.users.rows && o != id && db.users.rows[o].userName == name
  }

  function UserCreate(db: Database, id: Id, row: User): Outcome {
    if UserNameTaken(db, row.userName) then Err(P2002)
    else Ok(db.(users := InsertRow(db.users, id, row)))
  }

  function UserUpdateCall(db: Database, id: Id, data: UserUpdate): Outcome {
    if id !in db.users.rows then Err(P2025)
    else
      var row := UpdatedUser(db.users.rows[id], data);
      if UserNameTakenByOther(db, id, row.userName) then Err(P2002)
      else Ok(db.(users := SetRow(db.users, id, row)))
  }

  /** Deleting a user cascades to the membership rows that refer to it. */
  function UserDelete(db: Database, id: Id): Outcome {
    if id !in db.users.rows then Err(P2025)
    else Ok(db.(users := DropRow(db.users, id), members := Keep(db.members, (m: Member) => m.userId != id)))
  }

  // ---------------------------------------------------------------- groups

  predicate DisplayNameTaken(db: Database, name: string) {
    exists id :: id in db.groups.rows && db.groups.rows[id].displayName == name
  }

  predicate DisplayNameTakenByOther(db: Database, id: Id, name: string) {
    exists o :: o in db.groups.rows && o != id && db.groups.rows[o].displayName == name
  }

  /** Inserts one membership row: the unique index is checked before the foreign keys. */
  function InsertMember(db: Database, g: Id, u: Id): Outcome {
    if Member(g, u) in db.members then Err(P2002)
    else if g !in db.groups.rows || u !in db.users.rows then Err(P2003)
    else Ok(db.(members := db.members + [Member(g, u)]))
  }

  /** A nested `members: { create: [...] }`: one row at a time, in list order. */
  function InsertMembers(db: Database, g: Id, us: seq<Id>): Outcome
    decreases |us|
  {
    if us == [] then Ok(db)
    else match InsertMember(db, g, us[0])
      case Err(e) => Err(e)
      case Ok(db1) => InsertMembers(db1, g, us[1..])
  }

  function GroupCreate(db: Database, id: Id, row: Group, us: seq<Id>): Outcome {
    if DisplayNameTaken(db, row.displayName) then Err(P2002)
    else InsertMembers(db.(groups := InsertRow(db.groups, id, row)), id, us)
  }

  /** Deleting a group cascades to its membership rows. */
  function GroupDelete(db: Database, id: Id): Outcome {
    if id !in db.groups.rows then Err(P2025)
    else Ok(db.(groups := DropRow(db.groups, id), members := Keep(db.members, (m: Member) => m.groupId != id)))
  }

  // ---------------------------------------------------------------- transactions

  /** The statements the group service puts into `$transaction([...])`. */
  datatype Stmt =
    | DeleteMembersOf(groupId: Id)
    | DeleteMember(groupId: Id, userId: Id)
    | UpsertMember(groupId: Id, userId: Id)
    | UpdateGroup(groupId: Id, displayName: Change<string>, externalId: Change<Option<string>>, created: seq<Id>)

  function Exec(db: Database, s: Stmt): Outcome {
    match s
    case DeleteMembersOf(g) => Ok(db.(members := Keep(db.members, (m: Member) => m.groupId != g)))
    case DeleteMember(g, u) => Ok(db.(members := Keep(db.members, m => m != Member(g, u))))
    case UpsertMember(g, u) => if Member(g, u) in db.members then Ok(db) else InsertMember(db, g, u)
    case UpdateGroup(g, name, ext, us) =>
      if g !in db.groups.rows then Err(P2025)
      else
        var row := Group(Updated(db.groups.rows[g].displayName, name), Updated(db.groups.rows[g].externalId, ext));
        if DisplayNameTakenByOther(db, g, row.displayName) then Err(P2002)
        else InsertMembers(db.(groups := SetRow(db.groups, g, row)), g, us)
  }

  /** `$transaction`: the statements in order, or the first error and no effect at all. */
  function Transaction(db: Database, stmts: seq<Stmt>): Outcome
    decreases |stmts|
  {
    if stmts == [] then Ok(db)
    else match Exec(db, stmts[0])
      case Err(e) => Err(e)
      case Ok(db1) => Transaction(db1, stmts[1..])
  }

  // ---------------------------------------------------------------- bulk deletes of the demo page

  function WipeMembers(db: Database): Database {
    db.(members := [])
  }

  /** deleteMany() on users cascades to every membership. */
  function WipeUsers(db: Database): Database {
    db.(users := Table([], map[]), members := [])
  }

  function WipeGroups(db: Database): Database {
    db.(groups := Table([], map[]), members := [])
  }

  // ---------------------------------------------------------------- views

  /** The users of a group's member rows, in row order. */
  function MemberIds(ms: seq<Member>, g: Id): (r: seq<Id>)
    ensures forall u :: u in r <==> Member(g, u) in ms
  {
    if ms == [] then []
    else (if ms[0].groupId == g then [ms[0].userId] else []) + MemberIds(ms[1..], g)
  }

  /** The groups of a user's member rows, in row order (the demo page's `memberships` include). */
  function GroupIds(ms: seq<Member>, u: Id): (r: seq<Id>)
    ensures forall g :: g in r <==> Member(g, u) in ms
  {
    if ms == [] then []
    else (if ms[0].userId == u then [ms[0].groupId] else []) + GroupIds(ms[1..], u)
  }

  function MembersOf(db: Database, g: Id): set<Id> {
    Elems(MemberIds(db.members, g))
  }

  lemma {:induction false} MemberIdsNoDup(ms: seq<Member>, g: Id)
    requires NoDup(ms)
    ensures NoDup(MemberIds(ms, g))
  {
    if ms != [] {
      MemberIdsNoDup(ms[1..], g);
      if ms[0].groupId == g {
        assert ms[0] == Member(g, ms[0].userId);
        assert ms[0] !in ms[1..];
      }
    }
  }

  // ---------------------------------------------------------------- every call keeps the constraints

  lemma UserCreateValid(db: Database, id: Id, row: User)
    requires Valid(db) && id !in db.users.rows
    ensures UserCreate(db, id, row).Ok? ==> Valid(UserCreate(db, id, row).value)
  {
    InsertRowOk(db.users, id, row);
  }

  lemma UserUpdateValid(db: Database, id: Id, data: UserUpdate)
    requires Valid(db)
    ensures UserUpdateCall(db, id, data).Ok? ==> Valid(UserUpdateCall(db, id, data).value)
  {
  }

  lemma UserDeleteValid(db: Database, id: Id)
    requires Valid(db)
    ensures UserDelete(db, id).Ok? ==> Valid(UserDelete(db, id).value)
  {
    DropRowOk(db.users, id);
    KeepNoDup(db.members, (m: Member) => m.userId != id);
  }

  lemma {:induction false} InsertMembersValid(db: Database, g: Id, us: seq<Id>)
    requires Valid(db)
    ensures InsertMembers(db, g, us).Ok? ==> Valid(InsertMembers(db, g, us).value)
    decreases |us|
  {
    if us != [] && InsertMember(db, g, us[0]).Ok? {
      NoDupAppend(db.members, Member(g, us[0]));
      InsertMembersValid(InsertMember(db, g, us[0]).value, g, us[1..]);
    }
  }

  lemma GroupCreateValid(db: Database, id: Id, row: Group, us: seq<Id>)
    requires Valid(db) && id !in db.groups.rows
    ensures GroupCreate(db, id, row, us).Ok? ==> Valid(GroupCreate(db, id, row, us).value)
  {
    if !DisplayNameTaken(db, row.displayName) {
      InsertRowOk(db.groups, id, row);
      InsertMembersValid(db.(groups := InsertRow(db.groups, id, row)), id, us);
    }
  }

  lemma GroupDeleteValid(db: Database, id: Id)
    requires Valid(db)
    ensures GroupDelete(db, id).Ok? ==> Valid(GroupDelete(db, id).value)
  {
    DropRowOk(db.groups, id);
    KeepNoDup(db.members, (m: Member) => m.groupId != id);
  }

  lemma ExecValid(db: Database, s: Stmt)
    requires Valid(db)
    ensures Exec(db, s).Ok? ==> Valid(Exec(db, s).value)
  {
    match s
    case DeleteMembersOf(g) => KeepNoDup(db.members, (m: Member) => m.groupId != g);
    case DeleteMember(g, u) => KeepNoDup(db.members, m => m != Member(g, u));
    case UpsertMember(g, u) =>
      if Member(g, u) !in db.members { NoDupAppend(db.members, Member(g, u)); }
    case UpdateGroup(g, name, ext, us) =>
      if g in db.groups.rows {
        var row := Group(Updated(db.groups.rows[g].displayName, name), Updated(db.groups.rows[g].externalId, ext));
        if !DisplayNameTakenByOther(db, g, row.displayName) {
          InsertMembersValid(db.(groups := SetRow(db.groups, g, row)), g, us);
        }
      }
  }

  lemma {:induction false} TransactionValid(db: Database, stmts: seq<Stmt>)
    requires Valid(db)
    ensures Transaction(db, stmts).Ok? ==> Valid(Transaction(db, stmts).value)
    decreases |stmts|
  {
    if stmts != [] {
      ExecValid(db, stmts[0]);
      if Exec(db, stmts[0]).Ok? {
        TransactionValid(Exec(db, stmts[0]).value, stmts[1..]);
      }
    }
  }
}

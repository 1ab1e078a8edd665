/** Any number of requests in flight at once. A step is one database call of one request, with whatever
    the request does before its next call; steps of different requests interleave freely. */
module Concurrency {
  import opened Prelude
  import opened Tables
  import opened Resources
  import opened ScimErrors
  import opened Api
  import opened SerialCalls
  import GroupPatch
  import GroupStore
  import UserPatch

  type Tid = nat

  /** The call a running request makes next. */
  datatype Pc = Check | Write | Reread | DropUsers | DropGroups

  datatype Thread = Running(req: Request, pc: Pc) | Done(req: Request, response: Response)

  /** `issued` holds every id ever given to a row, so that an id is never given twice. */
  datatype Config = Config(db: Database, issued: set<Id>, threads: map<Tid, Thread>)

  /** A request arrives, or a request in flight makes its next call; `newId` is the id a row created
      by that call gets. */
  datatype Event = Arrive(tid: Tid, req: Request) | Advance(tid: Tid, newId: Id)

  // ---------------------------------------------------------------- one step

  predicate IllTyped(req: Request) {
    || (req.PatchUser? && UserPatch.ToUpdate(req.fields).None?)
    || (req.PatchGroup? && !GroupPatch.Typed(req.patch))
  }

  /** The pre-check of the request fails with this exception. */
  function CheckFailure(db: Database, req: Request): Option<Exception> {
    match req
    case CreateUser(dto, _) =>
      if UserNameTaken(db, dto.userName) then
        Some(ConflictException("User with userName " + dto.userName + " already exists"))
      else None
    case CreateGroup(dto) =>
      if DisplayNameTaken(db, dto.displayName) then
        Some(ConflictException("Group with displayName " + dto.displayName + " already exists"))
      else None
    case ReplaceUser(id, _, _) => MissingUser(db, id)
    case PatchUser(id, _) => MissingUser(db, id)
    case RemoveUser(id) => MissingUser(db, id)
    case ReplaceGroup(id, _) => MissingGroup(db, id)
    case PatchGroup(id, _) => MissingGroup(db, id)
    case RemoveGroup(id) => MissingGroup(db, id)
    case ClearData => None
  }

  function MissingUser(db: Database, id: Id): Option<Exception> {
    if id in db.users.rows then None else Some(NotFoundException("User " + id + " not found"))
  }

  function MissingGroup(db: Database, id: Id): Option<Exception> {
    if id in db.groups.rows then None else Some(NotFoundException("Group " + id + " not found"))
  }

  /** The write of a request whose values have the right types. */
  function WriteCall(db: Database, newId: Id, req: Request): Outcome
    requires !req.ClearData? && !IllTyped(req)
  {
    match req
    case CreateUser(dto, digest) => UserCreate(db, newId, UserToCreate(dto, digest))
    case ReplaceUser(id, dto, digest) => UserUpdateCall(db, id, UserToReplace(dto, digest))
    case PatchUser(id, fields) => UserUpdateCall(db, id, UserPatch.ToUpdate(fields).value)
    case RemoveUser(id) => UserDelete(db, id)
    case CreateGroup(dto) => GroupCreate(db, newId, GroupToCreate(dto), MemberList(dto))
    case ReplaceGroup(id, dto) => Transaction(db, ReplaceStmts(id, dto))
    case PatchGroup(id, p) => Transaction(db, GroupStore.PatchStmts(id, p))
    case RemoveGroup(id) => GroupDelete(db, id)
  }

  function UserAnswer(db: Database, status: int, id: Id): Option<Response> {
    if id in db.users.rows then Some(Success(status, UserBody(ToScimUser(id, db.users.rows[id])))) else None
  }

  /** What a committed write answers with; the group writes that read again have no answer yet. */
  function Answer(db: Database, newId: Id, req: Request): Option<Response> {
    match req
    case CreateUser(_, _) => UserAnswer(db, 201, newId)
    case ReplaceUser(id, _, _) => UserAnswer(db, 200, id)
    case PatchUser(id, _) => UserAnswer(db, 200, id)
    case CreateGroup(_) =>
      if newId in db.groups.rows then Some(Success(201, GroupBody(ToScimGroup(db, newId)))) else None
    case RemoveUser(_) => Some(Success(204, NoBody))
    case RemoveGroup(_) => Some(Success(204, NoBody))
    case _ => None
  }

  predicate ReadsAgain(req: Request) {
    req.ReplaceGroup? || req.PatchGroup?
  }

  function StepCheck(db: Database, req: Request): (Database, Thread) {
    var failure := CheckFailure(db, req);
    if req.ClearData? then (WipeMembers(db), Running(req, DropUsers))
    else if failure.Some? then (db, Done(req, Thrown(failure.value)))
    // Prisma rejects the value without a database call.
    else if IllTyped(req) then (db, Done(req, Thrown(PrismaFailure(Validation))))
    // A patch without effect opens no transaction.
    else if req.PatchGroup? && GroupStore.PatchStmts(req.id, req.patch) == [] then (db, Running(req, Reread))
    else (db, Running(req, Write))
  }

  function StepWrite(db: Database, newId: Id, req: Request): (Database, Thread) {
    if req.ClearData? || IllTyped(req) then (db, Running(req, Write))
    else match WriteCall(db, newId, req)
      case Err(e) => (db, Done(req, Thrown(PrismaFailure(e))))
      case Ok(db') =>
        var answer := Answer(db', newId, req);
        (db', if answer.Some? then Done(req, answer.value) else Running(req, Reread))
  }

  function StepReread(db: Database, req: Request): (Database, Thread) {
    if !ReadsAgain(req) then (db, Running(req, Reread))
    else
      var missing := MissingGroup(db, req.id);
      (db, Done(req, if missing.Some? then Thrown(missing.value) else Success(200, GroupBody(ToScimGroup(db, req.id)))))
  }

  function StepThread(db: Database, newId: Id, req: Request, pc: Pc): (Database, Thread) {
    match pc
    case Check => StepCheck(db, req)
    case Write => StepWrite(db, newId, req)
    case Reread => StepReread(db, req)
    case DropUsers => (WipeUsers(db), Running(req, DropGroups))
    case DropGroups => (WipeGroups(db), Done(req, Success(204, NoBody)))
  }

  predicate Enabled(c: Config, e: Event) {
    match e
    case Arrive(tid, _) => tid !in c.threads
    case Advance(tid, newId) => tid in c.threads && c.threads[tid].Running? && newId !in c.issued
  }

  /** An event that cannot happen is ignored. */
  function Next(c: Config, e: Event): Config {
    if !Enabled(c, e) then c
    else match e
      case Arrive(tid, req) => c.(threads := c.threads[tid := Running(req, Check)])
      case Advance(tid, newId) =>
        var (db', th) := StepThread(c.db, newId, c.threads[tid].req, c.threads[tid].pc);
        Config(db', c.issued + {newId}, c.threads[tid := th])
  }

  function Run(c: Config, events: seq<Event>): Config
    decreases |events|
  {
    if events == [] then c else Run(Next(c, events[0]), events[1..])
  }

  function IdsOf(db: Database): set<Id> {
    db.users.rows.Keys + db.groups.rows.Keys
  }

  function Start(db: Database): Config {
    Config(db, IdsOf(db), map[])
  }

  // ---------------------------------------------------------------- the serial run

  /** An operation of the serial run: a whole request, or one of the three deletes of a wipe. */
  datatype Atom = Atom(tid: Tid, req: Request, pc: Pc, newId: Id)

  /** The call at which a request takes effect: its last call, except that the final re-read of a group
      write changes nothing. */
  predicate TakesEffect(req: Request, pc: Pc, after: Thread) {
    || req.ClearData?
    || pc == Write
    || (pc == Check && (after.Done? || after.pc == Reread))
  }

  function Effects(c: Config, e: Event): seq<Atom> {
    if e.Arrive? || !Enabled(c, e) then []
    else
      var th := c.threads[e.tid];
      if TakesEffect(th.req, th.pc, Next(c, e).threads[e.tid]) then [Atom(e.tid, th.req, th.pc, e.newId)] else []
  }

  /** The operations of a run in the order in which they take effect. */
  function History(c: Config, events: seq<Event>): seq<Atom>
    decreases |events|
  {
    if events == [] then [] else Effects(c, events[0]) + History(Next(c, events[0]), events[1..])
  }

  datatype Ledger = Ledger(db: Database, replies: map<Tid, Reply>)

  function SerialStep(l: Ledger, a: Atom): Ledger {
    if a.req.ClearData? then
      l.(db := match a.pc
               case DropUsers => WipeUsers(l.db)
               case DropGroups => WipeGroups(l.db)
               case _ => WipeMembers(l.db))
    else
      var (db', reply) := Serial(l.db, a.newId, a.req);
      Ledger(db', l.replies[a.tid := reply])
  }

  function SerialRun(l: Ledger, atoms: seq<Atom>): Ledger
    decreases |atoms|
  {
    if atoms == [] then l else SerialRun(SerialStep(l, atoms[0]), atoms[1..])
  }

  // ---------------------------------------------------------------- what must agree

  /** How an answer relates to the reply of the serial run, as far as every step keeps it. What the final
      re-read of a group write shows is stated exactly in GroupAnswered. */
  ghost predicate Matches(req: Request, r: Response, reply: Reply) {
    || View(r) == reply
    || (ReadsAgain(req) && reply.status == 200 && View(r) == NOT_FOUND)
    || (ReadsAgain(req) && reply.status == 200
        && r.Success? && r.status == 200 && r.body.GroupBody? && r.body.group.id == req.id)
    || (req.PatchGroup? && reply == NOT_FOUND && View(r) == BAD_REFERENCE)
  }

  const STATUSES := {200, 201, 204, 400, 404, 409}

  predicate OnTrack(req: Request, pc: Pc) {
    match pc
    case Check => true
    case Write => !req.ClearData? && !IllTyped(req)
    case Reread => ReadsAgain(req)
    case DropUsers => req.ClearData?
    case DropGroups => req.ClearData?
  }

  ghost predicate RunningAgrees(c: Config, l: Ledger, tid: Tid, req: Request, pc: Pc) {
    && OnTrack(req, pc)
    && (ReadsAgain(req) && pc != Check ==> req.id in c.issued)
    && (pc != Reread ==> tid !in l.replies)
    && (pc == Reread ==> tid in l.replies
                         && (l.replies[tid].status == 200 || (l.replies[tid] == NOT_FOUND && req.id !in c.db.groups.rows)))
  }

  ghost predicate DoneAgrees(l: Ledger, tid: Tid, req: Request, r: Response) {
    && (req.ClearData? ==> r == Success(204, NoBody))
    && (!req.ClearData? ==> tid in l.replies && Matches(req, r, l.replies[tid]))
    && (!IllTyped(req) ==> View(r).status in STATUSES)
  }

  ghost predicate ThreadAgrees(c: Config, l: Ledger, tid: Tid)
    requires tid in c.threads
  {
    match c.threads[tid]
    case Running(req, pc) => RunningAgrees(c, l, tid, req, pc)
    case Done(req, r) => DoneAgrees(l, tid, req, r)
  }

  ghost predicate Agrees(c: Config, l: Ledger) {
    && c.db == l.db
    && Valid(c.db)
    && IdsOf(c.db) <= c.issued
    && l.replies.Keys <= c.threads.Keys
    && forall tid :: tid in c.threads ==> ThreadAgrees(c, l, tid)
  }
}

/** One call of one request against the serial request at that moment. */
module Steps {
  import opened Prelude
  import opened Tables
  import opened Resources
  import opened ScimErrors
  import opened Api
  import opened SerialCalls
  import opened Concurrency
  import GroupPatch
  import GroupStore
  import UserPatch

  lemma SerialStatuses(db: Database, newId: Id, req: Request)
    ensures !IllTyped(req) ==> Serial(db, newId, req).1.status in STATUSES
  {
  }

  /** A failed pre-check answers what the serial run answers, and both leave the tables alone. */
  lemma CheckStep(db: Database, newId: Id, req: Request)
    requires Valid(db) && !req.ClearData?
    ensures var (db', th) := StepCheck(db, req);
      && db' == db && th.req == req
      && (th.Done? ==> Serial(db, newId, req).0 == db && View(th.response) == Serial(db, newId, req).1)
      && (th.Running? ==> OnTrack(req, th.pc) && th.pc in {Write, Reread} && (ReadsAgain(req) ==> req.id in db.groups.rows))
      && (th.Running? && th.pc == Reread ==> Serial(db, newId, req).0 == db && Serial(db, newId, req).1.status == 200)
  {
    if req.PatchGroup? && req.id in db.groups.rows && GroupPatch.Typed(req.patch) {
      PatchGroupCall(db, req.id, req.patch);
    }
  }

  lemma CreateGroupLinearizes(db: Database, newId: Id, dto: GroupDto)
    requires Valid(db) && newId !in db.groups.rows
    ensures var (db', th) := StepWrite(db, newId, CreateGroup(dto));
      && th.Done? && th.req == CreateGroup(dto)
      && db' == Serial(db, newId, CreateGroup(dto)).0
      && View(th.response) == Serial(db, newId, CreateGroup(dto)).1
  {
    GroupStore.CreateErrors(db, newId, dto);
    CreateGroupCall(db, newId, dto);
    GroupStore.InsertMembersKeepsGroups(db.(groups := InsertRow(db.groups, newId, GroupToCreate(dto))), newId, MemberList(dto));
  }

  /** The write step does and answers what the whole request would do now. */
  ghost predicate WriteAgrees(db: Database, newId: Id, req: Request) {
    var (db', th) := StepWrite(db, newId, req);
    && th.Done? && th.req == req
    && db' == Serial(db, newId, req).0
    && View(th.response) == Serial(db, newId, req).1
  }

  lemma UpdateUserLinearizes(db: Database, newId: Id, req: Request)
    requires (req.ReplaceUser? || req.PatchUser?) && !IllTyped(req)
    ensures WriteAgrees(db, newId, req)
  {
  }

  lemma RemoveLinearizes(db: Database, newId: Id, req: Request)
    requires req.RemoveUser? || req.RemoveGroup?
    ensures WriteAgrees(db, newId, req)
  {
  }

  /** The write of a user request, of a group creation or of a group deletion takes effect as the whole
      request would at that moment: a lost race looks like a failed pre-check. */
  lemma WriteStepLinearizes(db: Database, newId: Id, req: Request)
    requires Valid(db) && !req.ClearData? && !IllTyped(req) && !ReadsAgain(req) && newId !in IdsOf(db)
    ensures WriteAgrees(db, newId, req)
  {
    if req.CreateGroup? {
      CreateGroupLinearizes(db, newId, req.group);
    } else if req.RemoveUser? || req.RemoveGroup? {
      RemoveLinearizes(db, newId, req);
    } else if req.ReplaceUser? || req.PatchUser? {
      UpdateUserLinearizes(db, newId, req);
    }
  }

  /** Statements on a group that is gone either fail or do nothing. */
  lemma {:induction false} PatchOfMissingGroup(db: Database, g: Id, stmts: seq<Stmt>)
    requires MembersLive(db) && g !in db.groups.rows
    requires forall s :: s in stmts ==> s.groupId == g && (s.DeleteMember? || s.UpsertMember? || s.UpdateGroup?)
    ensures var t := Transaction(db, stmts); t == Ok(db) || t == Err(P2003) || t == Err(P2025)
    decreases |stmts|
  {
    if stmts != [] {
      assert stmts[0] in stmts;
      if stmts[0].DeleteMember? {
        KeepAll(db.members, m => m != Member(g, stmts[0].userId));
        assert Exec(db, stmts[0]) == Ok(db);
      }
      if Exec(db, stmts[0]).Ok? {
        PatchOfMissingGroup(db, g, stmts[1..]);
      }
    }
  }

  lemma {:induction false} PatchStmtsShape(g: Id, us: seq<Id>)
    ensures forall s :: s in GroupStore.Deletes(g, us) ==> s.DeleteMember? && s.groupId == g
    ensures forall s :: s in GroupStore.Upserts(g, us) ==> s.UpsertMember? && s.groupId == g
  {
    if us != [] {
      PatchStmtsShape(g, us[1..]);
    }
  }

  /** What must hold of the transaction step of a group replace or patch. */
  ghost predicate GroupWriteAgrees(db: Database, newId: Id, req: Request)
    requires ReadsAgain(req)
  {
    var (db', th) := StepWrite(db, newId, req);
    var (sdb, reply) := Serial(db, newId, req);
    && th.req == req && db' == sdb
    && (th.Done? ==> Matches(req, th.response, reply) && View(th.response).status in STATUSES)
    && (th.Running? ==> th.pc == Reread && (reply.status == 200 || (reply == NOT_FOUND && req.id !in db'.groups.rows)))
  }

  lemma WriteStepOfReplace(db: Database, newId: Id, req: Request)
    requires Valid(db) && req.ReplaceGroup?
    ensures GroupWriteAgrees(db, newId, req)
  {
    GroupStore.TransactionErrors(db, ReplaceStmts(req.id, req.group));
    GroupStore.TransactionKeepsGroups(db, ReplaceStmts(req.id, req.group));
    if req.id !in db.groups.rows {
      ReplaceOfMissingGroup(db, req.id, req.group);
    } else {
      ReplaceGroupCall(db, req.id, req.group);
    }
  }

  lemma WriteStepOfPatch(db: Database, newId: Id, req: Request)
    requires Valid(db) && req.PatchGroup? && !IllTyped(req)
    ensures GroupWriteAgrees(db, newId, req)
  {
    var stmts := GroupStore.PatchStmts(req.id, req.patch);
    GroupStore.TransactionErrors(db, stmts);
    GroupStore.TransactionKeepsGroups(db, stmts);
    if req.id !in db.groups.rows {
      PatchStmtsShape(req.id, GroupPatch.Ids(req.patch.removeIds));
      PatchStmtsShape(req.id, GroupPatch.Ids(req.patch.addIds));
      PatchOfMissingGroup(db, req.id, stmts);
    } else {
      PatchGroupCall(db, req.id, req.patch);
    }
  }

  /** The transaction of a group replace or patch has the effect of the whole request at that moment. */
  lemma WriteStepOfGroup(db: Database, newId: Id, req: Request)
    requires Valid(db) && ReadsAgain(req) && !IllTyped(req)
    ensures GroupWriteAgrees(db, newId, req)
  {
    if req.ReplaceGroup? {
      WriteStepOfReplace(db, newId, req);
    } else {
      WriteStepOfPatch(db, newId, req);
    }
  }

  predicate ChangesAttributes(p: GroupPatch.Patch) {
    p.displayName.Some? || p.externalId.Some?
  }

  /** A patch whose group is deleted between its check and its transaction answers 400 instead of 404
      exactly when it adds members and changes no attribute. */
  lemma PatchLosesToDelete(db: Database, newId: Id, req: Request)
    requires Valid(db) && req.PatchGroup? && GroupPatch.Typed(req.patch) && req.id !in db.groups.rows
    ensures var (db', th) := StepWrite(db, newId, req);
      && db' == db
      && (th.Done? && View(th.response) == BAD_REFERENCE <==> !ChangesAttributes(req.patch) && req.patch.addIds != [])
      && (th.Done? && View(th.response) == NOT_FOUND <==> ChangesAttributes(req.patch))
      && (th == Running(req, Reread) <==> !ChangesAttributes(req.patch) && req.patch.addIds == [])
      && Serial(db, newId, req).1 == NOT_FOUND
  {
    var p := req.patch;
    var a, d, u := GroupStore.AttributeStmts(req.id, p), GroupStore.Deletes(req.id, GroupPatch.Ids(p.removeIds)),
                   GroupStore.Upserts(req.id, GroupPatch.Ids(p.addIds));
    GroupStore.TransactionConcat(db, a + d, u);
    GroupStore.TransactionConcat(db, a, d);
    if ChangesAttributes(p) {
      assert Exec(db, a[0]) == Err(P2025);
      assert Transaction(db, a) == Err(P2025);
    } else {
      GroupStore.DeletesOfMissingGroup(db, req.id, GroupPatch.Ids(p.removeIds));
      assert a == [] && Transaction(db, a) == Ok(db);
      if p.addIds != [] {
        assert p.addIds[0] in p.addIds;
        GroupStore.UpsertsOfMissingGroup(db, req.id, GroupPatch.Ids(p.addIds));
      }
    }
  }

  /** The answer of a group write whose transaction fails: the serial one, or 400 for the lost race. */
  predicate LostRace(req: Request, r: Response, reply: Reply) {
    req.PatchGroup? && reply == NOT_FOUND && View(r) == BAD_REFERENCE
  }

  /** The end of a group write in exact terms: its transaction fails with the serial reply (or loses the
      race above), or it commits and reading again at once would show the serial reply. */
  lemma GroupWriteEnds(db: Database, newId: Id, req: Request)
    requires Valid(db) && ReadsAgain(req) && !IllTyped(req)
    ensures var (db1, th) := StepWrite(db, newId, req);
            var reply := Serial(db, newId, req).1;
      && (th.Done? ==> View(th.response) == reply || LostRace(req, th.response, reply))
      && (th.Done? && (req.ReplaceGroup? || req.id in db.groups.rows) ==> View(th.response) == reply)
      && (th.Running? ==> GroupOk(db1, 200, req.id) == reply)
  {
    WriteStepOfGroup(db, newId, req);
    if req.id !in db.groups.rows {
      if req.ReplaceGroup? { ReplaceOfMissingGroup(db, req.id, req.group); }
      else { PatchLosesToDelete(db, newId, req); }
    } else if req.ReplaceGroup? {
      GroupStore.TransactionErrors(db, ReplaceStmts(req.id, req.group));
      ReplaceGroupCall(db, req.id, req.group);
    } else {
      GroupStore.TransactionErrors(db, GroupStore.PatchStmts(req.id, req.patch));
      PatchGroupCall(db, req.id, req.patch);
    }
  }

  /** When nothing runs between the transaction and the re-read, the answer of a group replace, or of a
      patch of a group that is still there, is exactly the serial one; the re-read changes nothing. */
  lemma UninterruptedGroupWrite(db: Database, newId: Id, req: Request)
    requires Valid(db) && ReadsAgain(req) && !IllTyped(req)
    ensures var (db1, th) := StepWrite(db, newId, req);
            var reply := Serial(db, newId, req).1;
      && (th.Running? ==> var (db2, done) := StepReread(db1, req);
                          db2 == db1 && done.Done? && View(done.response) == reply)
      && (th.Done? && (req.ReplaceGroup? || req.id in db.groups.rows) ==> View(th.response) == reply)
  {
    GroupWriteEnds(db, newId, req);
  }

  lemma ReplaceOfMissingGroup(db: Database, g: Id, dto: GroupDto)
    requires g !in db.groups.rows
    ensures Transaction(db, ReplaceStmts(g, dto)) == Err(P2025)
  {
    var stmts := ReplaceStmts(g, dto);
    var db1 := Exec(db, stmts[0]).value;
    assert Exec(db1, stmts[1..][0]) == Err(P2025);
    assert Transaction(db1, stmts[1..]) == Err(P2025);
  }

  lemma WriteCallIds(db: Database, newId: Id, req: Request)
    requires !req.ClearData? && !IllTyped(req) && WriteCall(db, newId, req).Ok?
    ensures WriteCall(db, newId, req).value.users.rows.Keys <= db.users.rows.Keys + {newId}
    ensures WriteCall(db, newId, req).value.groups.rows.Keys <= db.groups.rows.Keys + {newId}
  {
    match req
    case CreateGroup(dto) =>
      GroupStore.InsertMembersKeepsGroups(db.(groups := InsertRow(db.groups, newId, GroupToCreate(dto))), newId, MemberList(dto));
    case ReplaceGroup(id, dto) => GroupStore.TransactionKeepsGroups(db, ReplaceStmts(id, dto));
    case PatchGroup(id, p) => GroupStore.TransactionKeepsGroups(db, GroupStore.PatchStmts(id, p));
    case _ =>
  }

  /** A step adds no id but the new one. */
  lemma StepIds(db: Database, newId: Id, req: Request, pc: Pc)
    ensures IdsOf(StepThread(db, newId, req, pc).0) <= IdsOf(db) + {newId}
    ensures StepThread(db, newId, req, pc).0.groups.rows.Keys <= db.groups.rows.Keys + {newId}
  {
    if pc == Write && !req.ClearData? && !IllTyped(req) && WriteCall(db, newId, req).Ok? {
      WriteCallIds(db, newId, req);
    }
  }
}

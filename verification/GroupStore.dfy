/** What the group service's transactions do to the tables. */
module GroupStore {
  import opened Prelude
  import opened Tables
  import opened Json
  import opened Resources
  import GroupPatch

  // ---------------------------------------------------------------- the statements of a patch

  function Deletes(g: Id, us: seq<Id>): seq<Stmt> {
    if us == [] then [] else [DeleteMember(g, us[0])] + Deletes(g, us[1..])
  }

  function Upserts(g: Id, us: seq<Id>): seq<Stmt> {
    if us == [] then [] else [UpsertMember(g, us[0])] + Upserts(g, us[1..])
  }

  function NameChange(name: Option<string>): Change<string> {
    if name.Some? then Put(name.value) else Leave
  }

  function ExternalIdChange(ext: Option<string>): Change<Option<string>> {
    if ext.Some? then Put(ext) else Leave
  }

  function AttributeStmts(g: Id, p: GroupPatch.Patch): seq<Stmt> {
    if p.displayName.Some? || p.externalId.Some? then
      [UpdateGroup(g, NameChange(p.displayName), ExternalIdChange(p.externalId), [])]
    else []
  }

  /** The `operations` array of GroupsService.patch. */
  function PatchStmts(g: Id, p: GroupPatch.Patch): seq<Stmt>
    requires GroupPatch.Typed(p)
  {
    AttributeStmts(g, p) + Deletes(g, GroupPatch.Ids(p.removeIds)) + Upserts(g, GroupPatch.Ids(p.addIds))
  }

  function PatchedRow(row: Group, p: GroupPatch.Patch): Group {
    Group(Updated(row.displayName, NameChange(p.displayName)), Updated(row.externalId, ExternalIdChange(p.externalId)))
  }

  /** The attributes after the operations one by one. */
  function RowInOrder(row: Group, ops: seq<PatchOp>): Group
    requires GroupPatch.Compile(ops).Some?
    decreases |ops|
  {
    if ops == [] then row
    else
      GroupPatch.CompileHead(ops);
      RowInOrder(PatchedRow(row, GroupPatch.Own(ops[0]).value), ops[1..])
  }

  /** On the attributes, the compiled patch always means the operations in order. */
  lemma {:induction false} AttributesMeanInOrder(row: Group, ops: seq<PatchOp>)
    requires GroupPatch.Compile(ops).Some?
    ensures PatchedRow(row, GroupPatch.Compile(ops).value) == RowInOrder(row, ops)
    decreases |ops|
  {
    if ops != [] {
      GroupPatch.CompileHead(ops);
      AttributesMeanInOrder(PatchedRow(row, GroupPatch.Own(ops[0]).value), ops[1..]);
    }
  }

  // ---------------------------------------------------------------- views

  predicate AllLive(db: Database, us: seq<Id>) {
    forall u :: u in us ==> u in db.users.rows
  }

  lemma MembersOfAt(db: Database, g: Id, u: Id)
    ensures u in MembersOf(db, g) <==> Member(g, u) in db.members
  {
  }

  /** Nothing but the rows and the members of `g` differs. */
  ghost predicate OthersUntouched(db: Database, db': Database, g: Id) {
    && db'.users == db.users
    && db'.groups.order == db.groups.order
    && db'.groups.rows.Keys == db.groups.rows.Keys
    && (forall h :: h in db.groups.rows && h != g ==> db'.groups.rows[h] == db.groups.rows[h])
    && (forall h, u :: h != g ==> (Member(h, u) in db'.members <==> Member(h, u) in db.members))
  }

  // ---------------------------------------------------------------- effects of statement lists

  lemma {:induction false} TransactionConcat(db: Database, s: seq<Stmt>, t: seq<Stmt>)
    ensures Transaction(db, s + t) ==
            match Transaction(db, s) { case Err(e) => Outcome.Err(e) case Ok(db1) => Transaction(db1, t) }
    decreases |s|
  {
    if s == [] {
      assert s + t == t;
    } else {
      assert (s + t)[1..] == s[1..] + t;
      if Exec(db, s[0]).Ok? {
        TransactionConcat(Exec(db, s[0]).value, s[1..], t);
      }
    }
  }

  lemma {:induction false} DeletesEffect(db: Database, g: Id, us: seq<Id>)
    ensures Transaction(db, Deletes(g, us)).Ok?
    ensures var db' := Transaction(db, Deletes(g, us)).value;
            db'.users == db.users && db'.groups == db.groups
            && forall m :: m in db'.members <==> m in db.members && !(m.groupId == g && m.userId in us)
    decreases |us|
  {
    if us != [] {
      var db1 := Exec(db, DeleteMember(g, us[0])).value;
      assert Deletes(g, us)[1..] == Deletes(g, us[1..]);
      DeletesEffect(db1, g, us[1..]);
    }
  }

  lemma {:induction false} UpsertsEffect(db: Database, g: Id, us: seq<Id>)
    requires MembersLive(db) && g in db.groups.rows
    ensures Transaction(db, Upserts(g, us)).Ok? <==> AllLive(db, us)
    ensures Transaction(db, Upserts(g, us)).Err? ==> Transaction(db, Upserts(g, us)) == Err(P2003)
    ensures Transaction(db, Upserts(g, us)).Ok? ==>
              var db' := Transaction(db, Upserts(g, us)).value;
              db'.users == db.users && db'.groups == db.groups
              && forall m :: m in db'.members <==> m in db.members || (m.groupId == g && m.userId in us)
    decreases |us|
  {
    if us != [] {
      assert Upserts(g, us)[1..] == Upserts(g, us[1..]);
      assert us[0] in us;
      if Exec(db, UpsertMember(g, us[0])).Ok? {
        var db1 := Exec(db, UpsertMember(g, us[0])).value;
        assert forall m :: m in db1.members <==> m in db.members || m == Member(g, us[0]);
        UpsertsEffect(db1, g, us[1..]);
      }
    }
  }

  /** The first position whose id repeats an earlier one, is a member already, or is no live user. */
  ghost predicate FirstFault(db: Database, g: Id, us: seq<Id>, k: nat) {
    && k < |us|
    && NoDup(us[..k])
    && (forall i :: 0 <= i < k ==> us[i] in db.users.rows && Member(g, us[i]) !in db.members)
    && (us[k] in us[..k] || Member(g, us[k]) in db.members || us[k] !in db.users.rows)
  }

  lemma NoDupHead(us: seq<Id>)
    requires us != []
    ensures NoDup(us) <==> NoDup(us[1..]) && us[0] !in us[1..]
  {
    assert forall i :: 0 < i < |us| ==> us[i] == us[1..][i - 1];
    if NoDup(us[1..]) && us[0] !in us[1..] {
      forall i, j | 0 <= i < j < |us| ensures us[i] != us[j] {
        assert us[j] == us[1..][j - 1];
      }
    }
    if NoDup(us) {
      forall k | 0 <= k < |us[1..]| ensures us[1..][k] != us[0] {
        assert us[k + 1] == us[1..][k];
      }
    }
  }

  /** Nested member rows go in exactly when the ids are distinct, new and live. */
  lemma {:induction false} InsertMembersEffect(db: Database, g: Id, us: seq<Id>)
    requires g in db.groups.rows
    ensures InsertMembers(db, g, us).Ok? <==>
            NoDup(us) && AllLive(db, us) && forall u :: u in us ==> Member(g, u) !in db.members
    ensures InsertMembers(db, g, us).Ok? ==>
              var db' := InsertMembers(db, g, us).value;
              db'.users == db.users && db'.groups == db.groups
              && forall m :: m in db'.members <==> m in db.members || (m.groupId == g && m.userId in us)
    ensures InsertMembers(db, g, us).Err? ==> InsertMembers(db, g, us).error in {P2002, P2003}
    decreases |us|
  {
    if us != [] {
      assert forall u :: u in us <==> u == us[0] || u in us[1..];
      NoDupHead(us);
      if InsertMember(db, g, us[0]).Ok? {
        var db1 := InsertMember(db, g, us[0]).value;
        assert forall m :: m in db1.members <==> m in db.members || m == Member(g, us[0]);
        InsertMembersEffect(db1, g, us[1..]);
      }
    }
  }

  /** When they do not go in, the first fault decides between the unique index and the foreign key. */
  lemma {:induction false} InsertMembersFault(db: Database, g: Id, us: seq<Id>) returns (k: nat)
    requires g in db.groups.rows && InsertMembers(db, g, us).Err?
    ensures FirstFault(db, g, us, k)
    ensures InsertMembers(db, g, us) ==
            Err(if us[k] in us[..k] || Member(g, us[k]) in db.members then P2002 else P2003)
    decreases |us|
  {
    if InsertMember(db, g, us[0]).Ok? {
      var db1 := InsertMember(db, g, us[0]).value;
      assert forall m :: m in db1.members <==> m in db.members || m == Member(g, us[0]);
      var j := InsertMembersFault(db1, g, us[1..]);
      FaultMoves(db, db1, g, us, j);
      k := j + 1;
    } else {
      k := 0;
    }
  }

  lemma FaultMoves(db: Database, db1: Database, g: Id, us: seq<Id>, k: nat)
    requires us != [] && db1.users == db.users
    requires us[0] in db.users.rows && Member(g, us[0]) !in db.members
    requires forall m :: m in db1.members <==> m in db.members || m == Member(g, us[0])
    requires FirstFault(db1, g, us[1..], k)
    ensures FirstFault(db, g, us, k + 1)
    ensures (us[1..][k] in us[1..][..k] || Member(g, us[1..][k]) in db1.members)
            <==> (us[k + 1] in us[..k + 1] || Member(g, us[k + 1]) in db.members)
  {
    var rest := us[1..];
    assert us[..k + 1] == [us[0]] + rest[..k];
    assert forall i :: 0 < i <= k ==> us[i] == rest[i - 1];
    assert forall i, j :: 0 < i < j <= k ==> us[i] == rest[..k][i - 1] && us[j] == rest[..k][j - 1];
    assert us[k + 1] == rest[k];
  }

  // ---------------------------------------------------------------- the two transactions

  predicate NameFree(db: Database, g: Id, name: Option<string>) {
    name.None? || !DisplayNameTakenByOther(db, g, name.value)
  }

  /** A patch commits exactly when its name is free and its added ids are live users; it then removes
      and adds exactly the listed members and touches nothing else. A failure is one error code and
      (Outcome having no database then) no effect. */
  lemma PatchTransaction(db: Database, g: Id, p: GroupPatch.Patch)
    requires Valid(db) && g in db.groups.rows && GroupPatch.Typed(p)
    ensures var t := Transaction(db, PatchStmts(g, p));
      && (t.Ok? <==> NameFree(db, g, p.displayName) && AllLive(db, GroupPatch.Ids(p.addIds)))
      && (t.Err? ==> t.error == if NameFree(db, g, p.displayName) then P2003 else P2002)
      && (t.Ok? ==> && Valid(t.value)
                    && MembersOf(t.value, g) == GroupPatch.Result(MembersOf(db, g), p)
                    && t.value.groups.rows == db.groups.rows[g := PatchedRow(db.groups.rows[g], p)]
                    && OthersUntouched(db, t.value, g))
  {
    var a, d, u := AttributeStmts(g, p), Deletes(g, GroupPatch.Ids(p.removeIds)), Upserts(g, GroupPatch.Ids(p.addIds));
    TransactionValid(db, PatchStmts(g, p));
    TransactionConcat(db, a + d, u);
    TransactionConcat(db, a, d);
    AttributeEffect(db, g, p);
    if Transaction(db, a).Ok? {
      var db1 := Transaction(db, a).value;
      DeletesEffect(db1, g, GroupPatch.Ids(p.removeIds));
      var db2 := Transaction(db1, d).value;
      UpsertsEffect(db2, g, GroupPatch.Ids(p.addIds));
      var t := Transaction(db, PatchStmts(g, p));
      if t.Ok? {
        forall x ensures x in MembersOf(t.value, g) <==> x in GroupPatch.Result(MembersOf(db, g), p) {
          MembersOfAt(db, g, x);
          MembersOfAt(t.value, g, x);
        }
      }
    }
  }

  lemma AttributeEffect(db: Database, g: Id, p: GroupPatch.Patch)
    requires Valid(db) && g in db.groups.rows
    ensures var t := Transaction(db, AttributeStmts(g, p));
      && (t.Ok? <==> NameFree(db, g, p.displayName))
      && (t.Err? ==> t.error == P2002)
      && (t.Ok? ==> && t.value.users == db.users && t.value.members == db.members && t.value.groups.order == db.groups.order
                    && t.value.groups.rows == db.groups.rows[g := PatchedRow(db.groups.rows[g], p)])
  {
    var row := db.groups.rows[g];
    if p.displayName.Some? || p.externalId.Some? {
      var s := UpdateGroup(g, NameChange(p.displayName), ExternalIdChange(p.externalId), []);
      assert AttributeStmts(g, p) == [s] && [s][1..] == [];
      assert Transaction(db, [s]) == match Exec(db, s) case Err(e) => Outcome.Err(e) case Ok(db1) => Transaction(db1, [s][1..]);
      if p.displayName.None? {
        assert !DisplayNameTakenByOther(db, g, row.displayName);
      }
    } else {
      assert db.groups.rows[g := row] == db.groups.rows;
    }
  }

  lemma ReplaceIsUpdate(db: Database, g: Id, dto: GroupDto)
    ensures Transaction(db, ReplaceStmts(g, dto)) ==
            Exec(Exec(db, DeleteMembersOf(g)).value, UpdateGroup(g, Put(dto.displayName), AsChange(dto.externalId), MemberList(dto)))
  {
    var stmts := ReplaceStmts(g, dto);
    var db1 := Exec(db, DeleteMembersOf(g)).value;
    assert stmts[1..] == [stmts[1]] && [stmts[1]][1..] == [];
    assert Transaction(db1, stmts[1..]) == match Exec(db1, stmts[1]) case Err(e) => Outcome.Err(e) case Ok(db2) => Transaction(db2, []);
  }

  /** After the first statement of a replace the group has no members and nothing else has changed. */
  lemma MembersDeleted(db: Database, g: Id)
    ensures var db1 := Exec(db, DeleteMembersOf(g)).value;
      && db1.users == db.users && db1.groups == db.groups
      && forall m :: m in db1.members <==> m in db.members && m.groupId != g
  {
  }

  /** Updating a memberless group with nested members. */
  lemma UpdateWithMembers(db: Database, g: Id, name: string, ext: Change<Option<string>>, us: seq<Id>)
    requires g in db.groups.rows && forall m :: m in db.members ==> m.groupId != g
    ensures var t := Exec(db, UpdateGroup(g, Put(name), ext, us));
      && (t.Ok? <==> NameFree(db, g, Some(name)) && NoDup(us) && AllLive(db, us))
      && (t.Err? ==> t.error in {P2002, P2003} && (!NameFree(db, g, Some(name)) ==> t.error == P2002))
      && (t.Ok? ==> && t.value.users == db.users && t.value.groups.order == db.groups.order
                    && t.value.groups.rows == db.groups.rows[g := Group(name, Updated(db.groups.rows[g].externalId, ext))]
                    && forall m :: m in t.value.members <==> m in db.members || (m.groupId == g && m.userId in us))
  {
    var row := Group(name, Updated(db.groups.rows[g].externalId, ext));
    if NameFree(db, g, Some(name)) {
      InsertMembersEffect(db.(groups := SetRow(db.groups, g, row)), g, us);
    }
  }

  /** A replace commits exactly when the name is free and the listed members are distinct live users;
      the member set is then exactly the list and no other group changes. Otherwise nothing changes,
      not even the rows the first statement deleted. */
  lemma ReplaceTransaction(db: Database, g: Id, dto: GroupDto)
    requires Valid(db) && g in db.groups.rows
    ensures var t := Transaction(db, ReplaceStmts(g, dto));
            var us := MemberList(dto);
      && (t.Ok? <==> NameFree(db, g, Some(dto.displayName)) && NoDup(us) && AllLive(db, us))
      && (t.Err? ==> t.error in {P2002, P2003} && (!NameFree(db, g, Some(dto.displayName)) ==> t.error == P2002))
      && (t.Ok? ==> && Valid(t.value)
                    && MembersOf(t.value, g) == Elems(us)
                    && t.value.groups.rows ==
                       db.groups.rows[g := Group(dto.displayName, Updated(db.groups.rows[g].externalId, AsChange(dto.externalId)))]
                    && OthersUntouched(db, t.value, g))
  {
    var us := MemberList(dto);
    var db1 := Exec(db, DeleteMembersOf(g)).value;
    TransactionValid(db, ReplaceStmts(g, dto));
    ReplaceIsUpdate(db, g, dto);
    MembersDeleted(db, g);
    UpdateWithMembers(db1, g, dto.displayName, AsChange(dto.externalId), us);
    assert NameFree(db1, g, Some(dto.displayName)) <==> NameFree(db, g, Some(dto.displayName));
    var t := Transaction(db, ReplaceStmts(g, dto));
    if t.Ok? {
      forall x ensures x in MembersOf(t.value, g) <==> x in Elems(us) {
        MembersOfAt(t.value, g, x);
      }
    }
  }

  /** A created group has exactly the listed members, which must be distinct live users. */
  lemma CreateGroupEffect(db: Database, g: Id, dto: GroupDto)
    requires Valid(db) && g !in db.groups.rows
    ensures var t := GroupCreate(db, g, GroupToCreate(dto), MemberList(dto));
            var us := MemberList(dto);
      && (t.Ok? <==> !DisplayNameTaken(db, dto.displayName) && NoDup(us) && AllLive(db, us))
      && (t.Err? ==> t.error in {P2002, P2003})
      && (t.Ok? ==> && Valid(t.value) && g in t.value.groups.rows && MembersOf(t.value, g) == Elems(us)
                    && t.value.users == db.users
                    && t.value.groups == InsertRow(db.groups, g, GroupToCreate(dto))
                    && forall h, u :: h != g ==> (Member(h, u) in t.value.members <==> Member(h, u) in db.members))
  {
    var us := MemberList(dto);
    GroupCreateValid(db, g, GroupToCreate(dto), us);
    if !DisplayNameTaken(db, dto.displayName) {
      var db1 := db.(groups := InsertRow(db.groups, g, GroupToCreate(dto)));
      assert forall u :: u in us ==> Member(g, u) !in db1.members;
      InsertMembersEffect(db1, g, us);
      if InsertMembers(db1, g, us).Ok? {
        var db' := InsertMembers(db1, g, us).value;
        forall x ensures x in MembersOf(db', g) <==> x in Elems(us) {
          MembersOfAt(db', g, x);
        }
      }
    }
  }

  lemma {:induction false} InsertMembersKeepsGroups(db: Database, g: Id, us: seq<Id>)
    ensures InsertMembers(db, g, us).Ok? ==>
            InsertMembers(db, g, us).value.groups == db.groups && InsertMembers(db, g, us).value.users == db.users
    decreases |us|
  {
    if us != [] && InsertMember(db, g, us[0]).Ok? {
      InsertMembersKeepsGroups(InsertMember(db, g, us[0]).value, g, us[1..]);
    }
  }

  /** The statements of a transaction neither add nor drop a group or a user. */
  lemma {:induction false} TransactionKeepsGroups(db: Database, stmts: seq<Stmt>)
    ensures Transaction(db, stmts).Ok? ==>
            && Transaction(db, stmts).value.groups.rows.Keys == db.groups.rows.Keys
            && Transaction(db, stmts).value.groups.order == db.groups.order
            && Transaction(db, stmts).value.users == db.users
    decreases |stmts|
  {
    if stmts != [] && Exec(db, stmts[0]).Ok? {
      if stmts[0].UpdateGroup? {
        var s := stmts[0];
        var row := Group(Updated(db.groups.rows[s.groupId].displayName, s.displayName),
                         Updated(db.groups.rows[s.groupId].externalId, s.externalId));
        InsertMembersKeepsGroups(db.(groups := SetRow(db.groups, s.groupId, row)), s.groupId, s.created);
      }
      TransactionKeepsGroups(Exec(db, stmts[0]).value, stmts[1..]);
    }
  }

  // ---------------------------------------------------------------- the errors a group write can end in

  lemma {:induction false} InsertMembersErrors(db: Database, g: Id, us: seq<Id>)
    ensures InsertMembers(db, g, us).Err? ==> InsertMembers(db, g, us).error in {P2002, P2003}
    decreases |us|
  {
    if us != [] && InsertMember(db, g, us[0]).Ok? {
      InsertMembersErrors(InsertMember(db, g, us[0]).value, g, us[1..]);
    }
  }

  lemma CreateErrors(db: Database, g: Id, dto: GroupDto)
    ensures var t := GroupCreate(db, g, GroupToCreate(dto), MemberList(dto));
            t.Err? ==> t.error in {P2002, P2003}
  {
    InsertMembersErrors(db.(groups := InsertRow(db.groups, g, GroupToCreate(dto))), g, MemberList(dto));
  }

  lemma {:induction false} TransactionErrors(db: Database, stmts: seq<Stmt>)
    ensures Transaction(db, stmts).Err? ==> Transaction(db, stmts).error in {P2002, P2003, P2025}
    decreases |stmts|
  {
    if stmts != [] {
      match stmts[0] {
        case UpsertMember(g, u) => InsertMembersErrors(db, g, [u]);
        case UpdateGroup(g, name, ext, us) =>
          if g in db.groups.rows {
            var row := Group(Updated(db.groups.rows[g].displayName, name), Updated(db.groups.rows[g].externalId, ext));
            InsertMembersErrors(db.(groups := SetRow(db.groups, g, row)), g, us);
          }
        case _ =>
      }
      if Exec(db, stmts[0]).Ok? {
        TransactionErrors(Exec(db, stmts[0]).value, stmts[1..]);
      }
    }
  }

  // ---------------------------------------------------------------- retry and commuting on the tables

  /** The same users and groups, and the same membership rows in some order. */
  ghost predicate SameTables(a: Database, b: Database) {
    a.users == b.users && a.groups == b.groups && Elems(a.members) == Elems(b.members)
  }

  lemma SameMembershipRows(a: Database, b: Database, g: Id)
    requires MembersOf(b, g) == MembersOf(a, g)
    requires forall h, u :: h != g ==> (Member(h, u) in b.members <==> Member(h, u) in a.members)
    ensures Elems(b.members) == Elems(a.members)
  {
    forall m ensures m in b.members <==> m in a.members {
      assert m == Member(m.groupId, m.userId);
      MembersOfAt(a, g, m.userId);
      MembersOfAt(b, g, m.userId);
    }
  }

  /** Retrying a committed patch commits again and leaves the tables as they are. */
  lemma PatchRetry(db: Database, g: Id, p: GroupPatch.Patch)
    requires Valid(db) && g in db.groups.rows && GroupPatch.Typed(p)
    requires Transaction(db, PatchStmts(g, p)).Ok?
    ensures var once := Transaction(db, PatchStmts(g, p)).value;
            var twice := Transaction(once, PatchStmts(g, p));
            twice.Ok? && SameTables(once, twice.value)
  {
    PatchTransaction(db, g, p);
    var once := Transaction(db, PatchStmts(g, p)).value;
    assert NameFree(once, g, p.displayName);
    PatchTransaction(once, g, p);
    var twice := Transaction(once, PatchStmts(g, p)).value;
    assert GroupPatch.Result(MembersOf(once, g), p) == MembersOf(once, g);
    assert PatchedRow(once.groups.rows[g], p) == once.groups.rows[g];
    assert twice.groups.rows == once.groups.rows;
    SameMembershipRows(once, twice, g);
  }

  /** Two patches of one group that commit in both orders leave the same membership in both exactly
      when neither sets an id the other clears. */
  lemma PatchOrder(db: Database, g: Id, p: GroupPatch.Patch, q: GroupPatch.Patch)
    requires Valid(db) && g in db.groups.rows && GroupPatch.Typed(p) && GroupPatch.Typed(q)
    requires AllLive(db, GroupPatch.Ids(p.addIds)) && AllLive(db, GroupPatch.Ids(q.addIds))
    requires NameFree(db, g, p.displayName) && NameFree(db, g, q.displayName)
    ensures var p1 := Transaction(db, PatchStmts(g, p));
            var q1 := Transaction(db, PatchStmts(g, q));
            && p1.Ok? && q1.Ok?
            && var pq := Transaction(p1.value, PatchStmts(g, q));
               var qp := Transaction(q1.value, PatchStmts(g, p));
            && pq.Ok? && qp.Ok?
            && (MembersOf(pq.value, g) == MembersOf(qp.value, g) <==> !GroupPatch.Conflict(p, q))
  {
    PatchTransaction(db, g, p);
    PatchTransaction(db, g, q);
    var p1, q1 := Transaction(db, PatchStmts(g, p)).value, Transaction(db, PatchStmts(g, q)).value;
    assert NameFree(p1, g, q.displayName) && NameFree(q1, g, p.displayName);
    PatchTransaction(p1, g, q);
    PatchTransaction(q1, g, p);
    GroupPatch.PatchesCommute(MembersOf(db, g), p, q);
  }

  // ---------------------------------------------------------------- cascades

  lemma {:induction false} MemberIdsWithoutUser(ms: seq<Member>, g: Id, u: Id)
    ensures MemberIds(Keep(ms, (m: Member) => m.userId != u), g) == Keep(MemberIds(ms, g), x => x != u)
  {
    var p := (m: Member) => m.userId != u;
    if ms != [] {
      MemberIdsWithoutUser(ms[1..], g, u);
      var head := if ms[0].groupId == g then [ms[0].userId] else [];
      KeepConcat(head, MemberIds(ms[1..], g), x => x != u);
      if p(ms[0]) {
        assert Keep(ms, p) == [ms[0]] + Keep(ms[1..], p);
        assert ([ms[0]] + Keep(ms[1..], p))[1..] == Keep(ms[1..], p);
        assert Keep(head, x => x != u) == head;
      } else {
        assert Keep(head, x => x != u) == [];
      }
    }
  }

  lemma {:induction false} GroupIdsWithoutGroup(ms: seq<Member>, u: Id, g: Id)
    ensures GroupIds(Keep(ms, (m: Member) => m.groupId != g), u) == Keep(GroupIds(ms, u), x => x != g)
  {
    var p := (m: Member) => m.groupId != g;
    if ms != [] {
      GroupIdsWithoutGroup(ms[1..], u, g);
      var head := if ms[0].userId == u then [ms[0].groupId] else [];
      KeepConcat(head, GroupIds(ms[1..], u), x => x != g);
      if p(ms[0]) {
        assert Keep(ms, p) == [ms[0]] + Keep(ms[1..], p);
        assert ([ms[0]] + Keep(ms[1..], p))[1..] == Keep(ms[1..], p);
        assert Keep(head, x => x != g) == head;
      } else {
        assert Keep(head, x => x != g) == [];
      }
    }
  }

  /** Deleting a user takes exactly that user out of every member list, in place, and changes no
      other user and no group. */
  lemma UserDeleteCascades(db: Database, u: Id)
    requires u in db.users.rows
    ensures UserDelete(db, u).Ok?
    ensures var db' := UserDelete(db, u).value;
      && (forall g :: MemberIds(db'.members, g) == Keep(MemberIds(db.members, g), x => x != u))
      && (forall w :: w != u ==> forall g :: g in GroupIds(db'.members, w) <==> g in GroupIds(db.members, w))
      && (forall g :: g !in GroupIds(db'.members, u))
      && db'.groups == db.groups
      && db'.users.rows == db.users.rows - {u} && db'.users.order == Keep(db.users.order, x => x != u)
  {
    var db' := UserDelete(db, u).value;
    forall g ensures MemberIds(db'.members, g) == Keep(MemberIds(db.members, g), x => x != u) {
      MemberIdsWithoutUser(db.members, g, u);
    }
  }

  /** Deleting a group takes exactly that group out of every user's group list, and changes no user
      and no other group. */
  lemma GroupDeleteCascades(db: Database, g: Id)
    requires g in db.groups.rows
    ensures GroupDelete(db, g).Ok?
    ensures var db' := GroupDelete(db, g).value;
      && (forall u :: GroupIds(db'.members, u) == Keep(GroupIds(db.members, u), x => x != g))
      && (forall h :: h != g ==> MembersOf(db', h) == MembersOf(db, h))
      && MembersOf(db', g) == {}
      && db'.users == db.users
      && db'.groups.rows == db.groups.rows - {g} && db'.groups.order == Keep(db.groups.order, x => x != g)
  {
    var db' := GroupDelete(db, g).value;
    forall u ensures GroupIds(db'.members, u) == Keep(GroupIds(db.members, u), x => x != g) {
      GroupIdsWithoutGroup(db.members, u, g);
    }
    forall h | h != g ensures MembersOf(db', h) == MembersOf(db, h) {
      forall x ensures x in MembersOf(db', h) <==> x in MembersOf(db, h) {
        MembersOfAt(db, h, x);
        MembersOfAt(db', h, x);
      }
    }
    forall x ensures x !in MembersOf(db', g) {
      MembersOfAt(db', g, x);
    }
  }

  // ---------------------------------------------------------------- a group that is gone

  lemma {:induction false} UpsertsOfMissingGroup(db: Database, g: Id, us: seq<Id>)
    requires MembersLive(db) && g !in db.groups.rows && us != []
    ensures Transaction(db, Upserts(g, us)) == Err(P2003)
  {
    assert Exec(db, Upserts(g, us)[0]) == Err(P2003);
  }

  lemma {:induction false} DeletesOfMissingGroup(db: Database, g: Id, us: seq<Id>)
    requires MembersLive(db) && g !in db.groups.rows
    ensures Transaction(db, Deletes(g, us)) == Ok(db)
    decreases |us|
  {
    if us != [] {
      KeepAll(db.members, m => m != Member(g, us[0]));
      assert Exec(db, Deletes(g, us)[0]) == Ok(db);
      assert Deletes(g, us)[1..] == Deletes(g, us[1..]);
      DeletesOfMissingGroup(db, g, us[1..]);
    }
  }
}

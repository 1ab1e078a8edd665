/** What a user PATCH does to each column, read from the operations themselves. */
module UserAttributes {
  import opened Prelude
  import opened Tables
  import opened Json
  import opened Resources
  import opened Api
  import opened Bodies
  import UserPatch

  // ---------------------------------------------------------------- what one operation gives a column

  predicate Sets(op: PatchOp) {
    IsOp(op.op, "add") || IsOp(op.op, "replace")
  }

  predicate SetsPath(op: PatchOp, path: string) {
    Sets(op) && op.path == Some(path) && path != ""
  }

  /** A path-less operation whose value is an object with this key. */
  predicate SetsKey(op: PatchOp, key: string) {
    Sets(op) && NoPath(op) && op.value.Some? && op.value.value.JObj? && key in op.value.value.fields
  }

  function At(op: PatchOp, key: string): Json
    requires SetsKey(op, key)
  {
    op.value.value.fields[key]
  }

  predicate HasField(v: Json, key: string) {
    v.JObj? && key in v.fields
  }

  /** Truthiness of the value. */
  ghost predicate GivesActive(op: PatchOp, b: bool) {
    (SetsPath(op, "active") && b == Truthy(op.value)) || (SetsKey(op, "active") && b == Truthy(Some(At(op, "active"))))
  }

  /** `userName` and `externalId`: the text of the value. */
  ghost predicate GivesText(op: PatchOp, attribute: string, t: string) {
    (SetsPath(op, attribute) && Text(op.value) == Some(t)) || (SetsKey(op, attribute) && Text(Some(At(op, attribute))) == Some(t))
  }

  /** A part of the name: under its path the text of the value, in an object the value as it is. */
  ghost predicate GivesName(op: PatchOp, path: string, part: string, v: Json) {
    || (SetsPath(op, path) && v.JStr? && Text(op.value) == Some(v.s))
    || (SetsKey(op, "name") && HasField(At(op, "name"), part) && At(op, "name").fields[part] == v)
  }

  predicate EmailPath(op: PatchOp) {
    SetsPath(op, "emails") || SetsPath(op, "emails[primary eq true].value")
  }

  /** Under a path: a text as it is, or of a list the text of the first entry's address, or of the entry when
      it has none. */
  ghost predicate GivesAddress(v: Value, t: string) {
    || v == Some(JStr(t))
    || (v.Some? && v.value.JArr? && |v.value.items| > 0
        && var first := v.value.items[0];
           Text(Some(if HasField(first, "value") && first.fields["value"] != JNull then first.fields["value"] else first)) == Some(t))
  }

  /** In an object: the address of the first entry as it is; None is an entry without one. */
  ghost predicate GivesEntry(emails: Json, v: Option<Json>) {
    && emails.JArr? && |emails.items| > 0
    && var first := emails.items[0];
       v == if HasField(first, "value") then Some(first.fields["value"]) else None
  }

  ghost predicate GivesEmail(op: PatchOp, v: Option<Json>) {
    || (EmailPath(op) && v.Some? && v.value.JStr? && GivesAddress(op.value, v.value.s))
    || (SetsKey(op, "emails") && GivesEntry(At(op, "emails"), v))
  }

  /** What the operation writes on its own is what it gives, column by column, and nothing else. */
  ghost predicate GivesExactly(op: PatchOp, f: UserPatch.Fields) {
    && (forall b :: f.active == UserPatch.Defined(b) <==> GivesActive(op, b))
    && (forall t :: f.userName == UserPatch.Defined(t) <==> GivesText(op, "userName", t))
    && (forall t :: f.externalId == UserPatch.Defined(t) <==> GivesText(op, "externalId", t))
    && (forall v :: f.givenName == UserPatch.Defined(v) <==> GivesName(op, "name.givenName", "givenName", v))
    && (forall v :: f.familyName == UserPatch.Defined(v) <==> GivesName(op, "name.familyName", "familyName", v))
    && (forall v :: f.email == UserPatch.Defined(v) <==> GivesEmail(op, Some(v)))
    && (f.email == UserPatch.Undefined <==> GivesEmail(op, None))
    && !f.active.Undefined? && !f.userName.Undefined? && !f.externalId.Undefined?
    && !f.givenName.Undefined? && !f.familyName.Undefined?
  }

  lemma OwnGives(op: PatchOp)
    requires UserPatch.Own(op).Some?
    ensures GivesExactly(op, UserPatch.Own(op).value)
  {
    if Sets(op) && !NoPath(op) {
      PathGives(op);
    } else if Sets(op) && op.value.Some? && op.value.value.JObj? {
      ObjectGives(op);
    }
  }

  lemma PathGives(op: PatchOp)
    requires UserPatch.Own(op).Some? && Sets(op) && !NoPath(op)
    ensures GivesExactly(op, UserPatch.Own(op).value)
  {
    var f := UserPatch.Own(op).value;
    forall v ensures f.givenName == UserPatch.Defined(v) <==> GivesName(op, "name.givenName", "givenName", v) {}
    forall v ensures f.familyName == UserPatch.Defined(v) <==> GivesName(op, "name.familyName", "familyName", v) {}
    forall v ensures f.email == UserPatch.Defined(v) <==> GivesEmail(op, Some(v)) {}
  }

  lemma ObjectGives(op: PatchOp)
    requires UserPatch.Own(op).Some? && Sets(op) && NoPath(op) && op.value.Some? && op.value.value.JObj?
    ensures GivesExactly(op, UserPatch.Own(op).value)
  {
  }

  // ---------------------------------------------------------------- what throws

  /** The entry a list starts with is null, or its text cannot be made. */
  ghost predicate BadFirstEntry(v: Value) {
    && v.Some? && v.value.JArr? && |v.value.items| > 0
    && var first := v.value.items[0];
       first == JNull
       || Text(Some(if HasField(first, "value") && first.fields["value"] != JNull then first.fields["value"] else first)) == None
  }

  /** The operations on which the compiler throws. */
  ghost predicate Throws(op: PatchOp) {
    || ((SetsPath(op, "userName") || SetsPath(op, "externalId") || SetsPath(op, "name.givenName") || SetsPath(op, "name.familyName"))
        && Text(op.value) == None)
    || (EmailPath(op) && BadFirstEntry(op.value))
    || (SetsKey(op, "userName") && Text(Some(At(op, "userName"))) == None)
    || (SetsKey(op, "externalId") && Text(Some(At(op, "externalId"))) == None)
    || (SetsKey(op, "emails") && At(op, "emails").JArr? && |At(op, "emails").items| > 0 && At(op, "emails").items[0] == JNull)
  }

  lemma ThrowsExactly(op: PatchOp)
    ensures UserPatch.Own(op).None? <==> Throws(op)
  {
  }

  // ---------------------------------------------------------------- lists

  /** The last operation that gives anything gives `x`. */
  ghost predicate LastGiven<T(!new)>(ops: seq<PatchOp>, gives: (PatchOp, T) -> bool, x: T) {
    exists i :: 0 <= i < |ops| && gives(ops[i], x) && forall k, y :: i < k < |ops| ==> !gives(ops[k], y)
  }

  ghost predicate NoneGiven<T(!new)>(ops: seq<PatchOp>, gives: (PatchOp, T) -> bool) {
    forall k, y :: 0 <= k < |ops| ==> !gives(ops[k], y)
  }

  function Column<T>(ops: seq<PatchOp>, column: UserPatch.Fields -> UserPatch.Slot<T>): (w: seq<UserPatch.Slot<T>>)
    ensures |w| == |ops|
    ensures forall i :: 0 <= i < |ops| && UserPatch.Own(ops[i]).Some? ==> w[i] == column(UserPatch.Own(ops[i]).value)
  {
    seq(|ops|, i requires 0 <= i < |ops| =>
      if UserPatch.Own(ops[i]).Some? then column(UserPatch.Own(ops[i]).value) else UserPatch.Absent)
  }

  /** A column is taken over from the newer record unless it is absent there. */
  ghost predicate Overlaid<T(!new)>(column: UserPatch.Fields -> UserPatch.Slot<T>) {
    && column(UserPatch.NO_FIELDS) == UserPatch.Absent
    && forall f, g :: column(UserPatch.Overlay(f, g)) == UserPatch.Over(column(f), column(g))
  }

  lemma {:induction false} CompiledColumnIs<T(!new)>(ops: seq<PatchOp>, column: UserPatch.Fields -> UserPatch.Slot<T>)
    requires UserPatch.Compile(ops).Some? && Overlaid(column)
    ensures column(UserPatch.Compile(ops).value) == UserPatch.LastWrite(Column(ops, column))
    decreases |ops|
  {
    if ops != [] {
      UserPatch.CompileHead(ops);
      CompiledColumnIs(ops[1..], column);
      assert Column(ops, column)[1..] == Column(ops[1..], column);
    }
  }

  /** `w` is what the operations give, one by one. */
  ghost predicate Gives<T(!new)>(ops: seq<PatchOp>, w: seq<UserPatch.Slot<T>>, gives: (PatchOp, T) -> bool) {
    && |w| == |ops|
    && (forall i :: 0 <= i < |w| ==> !w[i].Undefined?)
    && forall i, x :: 0 <= i < |w| ==> (gives(ops[i], x) <==> w[i] == UserPatch.Defined(x))
  }

  /** The last write is what the last operation that gives anything gives. */
  lemma LastWriteDecides<T(!new)>(ops: seq<PatchOp>, w: seq<UserPatch.Slot<T>>, gives: (PatchOp, T) -> bool)
    requires Gives(ops, w, gives)
    ensures var c := UserPatch.LastWrite(w);
            (c.Absent? && NoneGiven(ops, gives)) || (c.Defined? && LastGiven(ops, gives, c.value))
  {
    var j := UserPatch.LastWriteIs(w);
    var c := UserPatch.LastWrite(w);
    if !c.Absent? {
      assert gives(ops[j], c.value);
      forall k, y | j < k < |ops| ensures !gives(ops[k], y) {
        assert w[k].Absent? && (gives(ops[k], y) <==> w[k] == UserPatch.Defined(y));
      }
    } else {
      forall k, y | 0 <= k < |ops| ensures !gives(ops[k], y) {
        assert w[k].Absent? && (gives(ops[k], y) <==> w[k] == UserPatch.Defined(y));
      }
    }
  }

  lemma AllOwn(ops: seq<PatchOp>)
    requires UserPatch.Compile(ops).Some?
    ensures forall i :: 0 <= i < |ops| ==> UserPatch.Own(ops[i]).Some? && GivesExactly(ops[i], UserPatch.Own(ops[i]).value)
  {
    UserPatch.CompileFromOverlays(UserPatch.NO_FIELDS, ops);
    forall i | 0 <= i < |ops| ensures UserPatch.Own(ops[i]).Some? && GivesExactly(ops[i], UserPatch.Own(ops[i]).value) {
      assert ops[i] in ops && UserPatch.Compiles(ops[i]);
      OwnGives(ops[i]);
    }
  }

  ghost predicate Decided<T(!new)>(ops: seq<PatchOp>, c: UserPatch.Slot<T>, gives: (PatchOp, T) -> bool) {
    (c.Absent? && NoneGiven(ops, gives)) || (c.Defined? && LastGiven(ops, gives, c.value))
  }

  lemma CompiledActive(ops: seq<PatchOp>)
    requires UserPatch.Compile(ops).Some?
    ensures Decided(ops, UserPatch.Compile(ops).value.active, GivesActive)
  {
    var column := (f: UserPatch.Fields) => f.active;
    AllOwn(ops);
    CompiledColumnIs(ops, column);
    LastWriteDecides(ops, Column(ops, column), GivesActive);
  }

  lemma CompiledUserName(ops: seq<PatchOp>)
    requires UserPatch.Compile(ops).Some?
    ensures Decided(ops, UserPatch.Compile(ops).value.userName, (op, t) => GivesText(op, "userName", t))
  {
    var column := (f: UserPatch.Fields) => f.userName;
    AllOwn(ops);
    CompiledColumnIs(ops, column);
    LastWriteDecides(ops, Column(ops, column), (op, t) => GivesText(op, "userName", t));
  }

  lemma CompiledExternalId(ops: seq<PatchOp>)
    requires UserPatch.Compile(ops).Some?
    ensures Decided(ops, UserPatch.Compile(ops).value.externalId, (op, t) => GivesText(op, "externalId", t))
  {
    var column := (f: UserPatch.Fields) => f.externalId;
    AllOwn(ops);
    CompiledColumnIs(ops, column);
    LastWriteDecides(ops, Column(ops, column), (op, t) => GivesText(op, "externalId", t));
  }

  lemma CompiledGivenName(ops: seq<PatchOp>)
    requires UserPatch.Compile(ops).Some?
    ensures Decided(ops, UserPatch.Compile(ops).value.givenName, (op, v) => GivesName(op, "name.givenName", "givenName", v))
  {
    var column := (f: UserPatch.Fields) => f.givenName;
    AllOwn(ops);
    CompiledColumnIs(ops, column);
    LastWriteDecides(ops, Column(ops, column), (op, v) => GivesName(op, "name.givenName", "givenName", v));
  }

  lemma CompiledFamilyName(ops: seq<PatchOp>)
    requires UserPatch.Compile(ops).Some?
    ensures Decided(ops, UserPatch.Compile(ops).value.familyName, (op, v) => GivesName(op, "name.familyName", "familyName", v))
  {
    var column := (f: UserPatch.Fields) => f.familyName;
    AllOwn(ops);
    CompiledColumnIs(ops, column);
    LastWriteDecides(ops, Column(ops, column), (op, v) => GivesName(op, "name.familyName", "familyName", v));
  }

  /** An email slot with `undefined` as a value of its own. */
  function AsGiven(s: UserPatch.Slot<Json>): UserPatch.Slot<Option<Json>> {
    match s
    case Absent => UserPatch.Absent
    case Undefined => UserPatch.Defined(None)
    case Defined(v) => UserPatch.Defined(Some(v))
  }

  function EmailColumn(f: UserPatch.Fields): UserPatch.Slot<Option<Json>> {
    AsGiven(f.email)
  }

  lemma EmailOver(f: UserPatch.Fields, g: UserPatch.Fields)
    ensures EmailColumn(UserPatch.Overlay(f, g)) == UserPatch.Over(EmailColumn(f), EmailColumn(g))
  {
  }

  lemma EmailOverlaid()
    ensures Overlaid(EmailColumn)
  {
    assert EmailColumn(UserPatch.NO_FIELDS) == UserPatch.Absent;
    forall f, g ensures EmailColumn(UserPatch.Overlay(f, g)) == UserPatch.Over(EmailColumn(f), EmailColumn(g)) {
      EmailOver(f, g);
    }
  }

  lemma EmailsGiven(ops: seq<PatchOp>)
    requires UserPatch.Compile(ops).Some?
    ensures Gives(ops, Column(ops, EmailColumn), GivesEmail)
  {
    AllOwn(ops);
    var w := Column(ops, EmailColumn);
    forall i, x | 0 <= i < |w| ensures GivesEmail(ops[i], x) <==> w[i] == UserPatch.Defined(x) {
      EmailGiven(ops[i], UserPatch.Own(ops[i]).value, x);
    }
  }

  lemma CompiledEmail(ops: seq<PatchOp>)
    requires UserPatch.Compile(ops).Some?
    ensures Decided(ops, AsGiven(UserPatch.Compile(ops).value.email), GivesEmail)
  {
    EmailOverlaid();
    CompiledColumnIs(ops, EmailColumn);
    EmailsGiven(ops);
    LastWriteDecides(ops, Column(ops, EmailColumn), GivesEmail);
  }

  lemma EmailGiven(op: PatchOp, f: UserPatch.Fields, x: Option<Json>)
    requires GivesExactly(op, f)
    ensures GivesEmail(op, x) <==> AsGiven(f.email) == UserPatch.Defined(x)
  {
  }

  // ---------------------------------------------------------------- rows

  /** A column after the operations: what the last one that gives anything gives, or else as before. */
  ghost predicate Set<T(!new), C>(ops: seq<PatchOp>, gives: (PatchOp, T) -> bool, stored: T -> C, before: C, after: C) {
    (NoneGiven(ops, gives) && after == before) || exists x :: LastGiven(ops, gives, x) && after == stored(x)
  }

  /** A name is a text or null. */
  ghost predicate SetName(ops: seq<PatchOp>, path: string, part: string, before: Option<string>, after: Option<string>) {
    var gives := (op: PatchOp, v: Json) => GivesName(op, path, part, v);
    || (NoneGiven(ops, gives) && after == before)
    || (LastGiven(ops, gives, JNull) && after == None)
    || (after.Some? && LastGiven(ops, gives, JStr(after.value)))
  }

  /** An email is a text or null; an entry without an address leaves it as it was. */
  ghost predicate SetEmail(ops: seq<PatchOp>, before: Option<string>, after: Option<string>) {
    || (NoneGiven(ops, GivesEmail) && after == before)
    || (LastGiven(ops, GivesEmail, None) && after == before)
    || (LastGiven(ops, GivesEmail, Some(JNull)) && after == None)
    || (after.Some? && LastGiven(ops, GivesEmail, Some(JStr(after.value))))
  }

  ghost predicate RowSet(before: User, after: User, ops: seq<PatchOp>) {
    && Set(ops, GivesActive, (b: bool) => b, before.active, after.active)
    && Set(ops, (op, t) => GivesText(op, "userName", t), (t: string) => t, before.userName, after.userName)
    && Set(ops, (op, t) => GivesText(op, "externalId", t), (t: string) => Some(t), before.externalId, after.externalId)
    && SetName(ops, "name.givenName", "givenName", before.givenName, after.givenName)
    && SetName(ops, "name.familyName", "familyName", before.familyName, after.familyName)
    && SetEmail(ops, before.email, after.email)
    && after.passwordHash == before.passwordHash
  }

  lemma SetFrom<T(!new), C>(ops: seq<PatchOp>, c: UserPatch.Slot<T>, gives: (PatchOp, T) -> bool, stored: T -> C, before: C)
    requires Decided(ops, c, gives)
    ensures Set(ops, gives, stored, before, if c.Defined? then stored(c.value) else before)
  {
  }

  lemma SetNameFrom(ops: seq<PatchOp>, c: UserPatch.Slot<Json>, path: string, part: string, before: Option<string>)
    requires Decided(ops, c, (op: PatchOp, v: Json) => GivesName(op, path, part, v)) && UserPatch.TextChange(c).Some?
    ensures SetName(ops, path, part, before, Updated(before, UserPatch.TextChange(c).value))
  {
  }

  lemma SetEmailFrom(ops: seq<PatchOp>, c: UserPatch.Slot<Json>, before: Option<string>)
    requires Decided(ops, AsGiven(c), GivesEmail) && UserPatch.TextChange(c).Some?
    ensures SetEmail(ops, before, Updated(before, UserPatch.TextChange(c).value))
  {
  }

  /** For every row and list that the source carries out: each column holds what the last operation that gives
      it anything gives, or what it held; the password hash stays. */
  lemma PatchedColumns(row: User, ops: seq<PatchOp>)
    requires UserPatch.Batch(row, ops).Some?
    ensures RowSet(row, UserPatch.Batch(row, ops).value, ops)
  {
    var f := UserPatch.Compile(ops).value;
    var after := UserPatch.Batch(row, ops).value;
    CompiledActive(ops);
    SetFrom(ops, f.active, GivesActive, (b: bool) => b, row.active);
    CompiledUserName(ops);
    SetFrom(ops, f.userName, (op, t) => GivesText(op, "userName", t), (t: string) => t, row.userName);
    CompiledExternalId(ops);
    SetFrom(ops, f.externalId, (op, t) => GivesText(op, "externalId", t), (t: string) => Some(t), row.externalId);
    NamesSet(row.givenName, row.familyName, ops);
    CompiledEmail(ops);
    SetEmailFrom(ops, f.email, row.email);
  }

  lemma NamesSet(given: Option<string>, family: Option<string>, ops: seq<PatchOp>)
    requires UserPatch.Compile(ops).Some? && UserPatch.ToUpdate(UserPatch.Compile(ops).value).Some?
    ensures var f := UserPatch.Compile(ops).value;
      && SetName(ops, "name.givenName", "givenName", given, Updated(given, UserPatch.TextChange(f.givenName).value))
      && SetName(ops, "name.familyName", "familyName", family, Updated(family, UserPatch.TextChange(f.familyName).value))
  {
    var f := UserPatch.Compile(ops).value;
    CompiledGivenName(ops);
    SetNameFrom(ops, f.givenName, "name.givenName", "givenName", given);
    CompiledFamilyName(ops);
    SetNameFrom(ops, f.familyName, "name.familyName", "familyName", family);
  }

  /** A user PATCH that succeeds sets exactly these columns of the user, and shows the row. */
  lemma UserPatched(db: Database, id: Id, newId: Id, ops: seq<PatchOp>)
    requires id in db.users.rows && UserPatch.Compile(ops).Some?
    requires Serial(db, newId, PatchUser(id, UserPatch.Compile(ops).value)).1.status == 200
    ensures var (db', reply) := Serial(db, newId, PatchUser(id, UserPatch.Compile(ops).value));
      && id in db'.users.rows
      && RowSet(db.users.rows[id], db'.users.rows[id], ops)
      && ShowsUser(reply.body, id, db'.users.rows[id])
  {
    var req := PatchUser(id, UserPatch.Compile(ops).value);
    assert UserPatch.Batch(db.users.rows[id], ops) == Some(Serial(db, newId, req).0.users.rows[id]);
    PatchedColumns(db.users.rows[id], ops);
    UserAnswers(db, newId, req);
  }
}

/** src/scim/users/apply-user-patch.ts: a list of patch operations is folded into one update record. */
module UserPatch {
  import opened Prelude
  import opened Tables
  import opened Json

  /** A property of UserPatchFields: never assigned, assigned `undefined`, or assigned a value. */
  datatype Slot<+T> = Absent | Undefined | Defined(value: T)

  /** Names and email keep whatever JSON the client sent; the rest is coerced. */
  datatype Fields = Fields(
    active: Slot<bool>,
    userName: Slot<string>,
    givenName: Slot<Json>,
    familyName: Slot<Json>,
    email: Slot<Json>,
    externalId: Slot<string>)

  const NO_FIELDS := Fields(Absent, Absent, Absent, Absent, Absent, Absent)

  function FromValue(v: Value): Slot<Json> {
    match v
    case None => Undefined
    case Some(j) => Defined(j)
  }

  // ---------------------------------------------------------------- the operations as functions

  /** The string `email` is set to for the two email paths; the outer None is a thrown TypeError. */
  function PathEmail(v: Value): Option<Slot<Json>> {
    if v.Some? && v.value.JArr? && v.value.items != [] then
      var first := v.value.items[0];
      if first.JNull? then None
      else
        var inner := Property(first, "value");
        var text := Text(if Nullish(inner) then Some(first) else inner);
        if text.None? then None else Some(Defined(JStr(text.value)))
    else if v.Some? && v.value.JStr? then Some(Defined(v.value))
    else Some(Absent)
  }

  /** What `applyValueForPath` leaves in the record; None when it throws. */
  function ApplyPath(f: Fields, path: string, v: Value): Option<Fields> {
    if path == "active" then Some(f.(active := Defined(Truthy(v))))
    else if path == "userName" || path == "name.givenName" || path == "name.familyName" || path == "externalId" then
      match Text(v)
      case None => None
      case Some(t) =>
        if path == "userName" then Some(f.(userName := Defined(t)))
        else if path == "name.givenName" then Some(f.(givenName := Defined(JStr(t))))
        else if path == "name.familyName" then Some(f.(familyName := Defined(JStr(t))))
        else Some(f.(externalId := Defined(t)))
    else if path == "emails" || path == "emails[primary eq true].value" then
      match PathEmail(v)
      case None => None
      case Some(s) => Some(if s.Absent? then f else f.(email := s))
    else Some(f)
  }

  /** String(value[key]) when the key is present: the outer None is a thrown TypeError. */
  function KeyText(v: Json, key: string): Option<Slot<string>> {
    var p := Property(v, key);
    if p.None? then Some(Absent)
    else match Text(p)
      case None => None
      case Some(t) => Some(Defined(t))
  }

  /** value.name?.<part>, kept only when it is not `undefined`. */
  function NamePart(v: Json, part: string): Slot<Json> {
    var name := Property(v, "name");
    if name.None? then Absent
    else
      var p := Property(name.value, part);
      if p.None? then Absent else Defined(p.value)
  }

  /** emails[0].value, which may be `undefined`; the outer None is a thrown TypeError. */
  function ObjectEmail(v: Json): Option<Slot<Json>> {
    var emails := Property(v, "emails");
    if emails.Some? && emails.value.JArr? && emails.value.items != [] then
      var first := emails.value.items[0];
      if first.JNull? then None else Some(FromValue(Property(first, "value")))
    else Some(Absent)
  }

  function Over<T>(older: Slot<T>, newer: Slot<T>): Slot<T> {
    if newer.Absent? then older else newer
  }

  /** What `applyValueObject` leaves in the record; None when it throws. */
  function ApplyObject(f: Fields, v: Json): Option<Fields> {
    var active := Property(v, "active");
    var userName := KeyText(v, "userName");
    var externalId := KeyText(v, "externalId");
    var email := ObjectEmail(v);
    if userName.None? || externalId.None? || email.None? then None
    else Some(Fields(
      if active.Some? then Defined(Truthy(active)) else f.active,
      Over(f.userName, userName.value),
      Over(f.givenName, NamePart(v, "givenName")),
      Over(f.familyName, NamePart(v, "familyName")),
      Over(f.email, email.value),
      Over(f.externalId, externalId.value)))
  }

  function ApplyOp(f: Fields, op: PatchOp): Option<Fields> {
    if !IsOp(op.op, "replace") && !IsOp(op.op, "add") then Some(f)
    else if !NoPath(op) then ApplyPath(f, op.path.value, op.value)
    else if op.value.Some? && (op.value.value.JObj? || op.value.value.JArr?) then ApplyObject(f, op.value.value)
    else Some(f)
  }

  function CompileFrom(f: Fields, ops: seq<PatchOp>): Option<Fields>
    decreases |ops|
  {
    if ops == [] then Some(f)
    else match ApplyOp(f, ops[0])
      case None => None
      case Some(g) => CompileFrom(g, ops[1..])
  }

  /** applyUserPatch; None when it throws. */
  function Compile(ops: seq<PatchOp>): Option<Fields> {
    CompileFrom(NO_FIELDS, ops)
  }

  // ---------------------------------------------------------------- the operations as written

  /** The `fields` record that the helpers assign in place. */
  class FieldsRecord {
    var active: Slot<bool>
    var userName: Slot<string>
    var givenName: Slot<Json>
    var familyName: Slot<Json>
    var email: Slot<Json>
    var externalId: Slot<string>

    constructor ()
      ensures Value() == NO_FIELDS
    {
      active, userName, givenName, familyName, email, externalId := Absent, Absent, Absent, Absent, Absent, Absent;
    }

    function Value(): Fields
      reads this
    {
      Fields(active, userName, givenName, familyName, email, externalId)
    }

    /** Returns whether the call completed; a false result stands for a thrown TypeError. */
    method ApplyValueForPath(path: string, v: Value) returns (ok: bool)
      modifies this
      ensures ok <==> ApplyPath(old(Value()), path, v).Some?
      ensures ok ==> Value() == ApplyPath(old(Value()), path, v).value
    {
      ok := true;
      match path {
        case "active" => active := Defined(Truthy(v));
        case "userName" =>
          var t := Text(v);
          if t.None? { return false; }
          userName := Defined(t.value);
        case "name.givenName" =>
          var t := Text(v);
          if t.None? { return false; }
          givenName := Defined(JStr(t.value));
        case "name.familyName" =>
          var t := Text(v);
          if t.None? { return false; }
          familyName := Defined(JStr(t.value));
        case "externalId" =>
          var t := Text(v);
          if t.None? { return false; }
          externalId := Defined(t.value);
        case _ =>
          if path == "emails" || path == "emails[primary eq true].value" {
            if v.Some? && v.value.JArr? && |v.value.items| > 0 {
              var first := v.value.items[0];
              if first.JNull? { return false; }
              var inner := Property(first, "value");
              var t := Text(if Nullish(inner) then Some(first) else inner);
              if t.None? { return false; }
              email := Defined(JStr(t.value));
            } else if v.Some? && v.value.JStr? {
              email := Defined(v.value);
            }
          }
      }
    }

    /** The assignments from `name` and `emails`. */
    method ApplyNameAndEmail(v: Json) returns (ok: bool)
      modifies `givenName, `familyName, `email
      ensures ok <==> ObjectEmail(v).Some?
      ensures ok ==> givenName == Over(old(givenName), NamePart(v, "givenName"))
                     && familyName == Over(old(familyName), NamePart(v, "familyName"))
                     && email == Over(old(email), ObjectEmail(v).value)
    {
      var name := Property(v, "name");
      if name.Some? {
        var g := Property(name.value, "givenName");
        if g.Some? { givenName := Defined(g.value); }
        var n := Property(name.value, "familyName");
        if n.Some? { familyName := Defined(n.value); }
      }
      var emails := Property(v, "emails");
      if emails.Some? && emails.value.JArr? && |emails.value.items| > 0 {
        var first := emails.value.items[0];
        if first.JNull? { return false; }
        email := FromValue(Property(first, "value"));
      }
      ok := true;
    }

    method ApplyValueObject(v: Json) returns (ok: bool)
      modifies this
      ensures ok <==> ApplyObject(old(Value()), v).Some?
      ensures ok ==> Value() == ApplyObject(old(Value()), v).value
    {
      var a := Property(v, "active");
      if a.Some? { active := Defined(Truthy(a)); }
      var u := Property(v, "userName");
      if u.Some? {
        var t := Text(u);
        if t.None? { return false; }
        userName := Defined(t.value);
      }
      var x := Property(v, "externalId");
      if x.Some? {
        var t := Text(x);
        if t.None? { return false; }
        externalId := Defined(t.value);
      }
      ok := ApplyNameAndEmail(v);
    }
  }

  method ApplyUserPatch(ops: seq<PatchOp>) returns (r: Option<Fields>)
    ensures r == Compile(ops)
  {
    var fields := new FieldsRecord();
    for i := 0 to |ops|
      invariant CompileFrom(fields.Value(), ops[i..]) == Compile(ops)
      invariant fresh(fields)
    {
      var op := ops[i];
      assert ops[i..][1..] == ops[i + 1..];
      if !IsOp(op.op, "replace") && !IsOp(op.op, "add") { continue; }
      var ok := true;
      if !NoPath(op) {
        ok := fields.ApplyValueForPath(op.path.value, op.value);
      } else if op.value.Some? && (op.value.value.JObj? || op.value.value.JArr?) {
        ok := fields.ApplyValueObject(op.value.value);
      }
      if !ok { return None; }
    }
    return Some(fields.Value());
  }

  // ---------------------------------------------------------------- what the update does to a row

  /** A nullable text column takes a string or null; anything else fails Prisma's validation. */
  function TextChange(s: Slot<Json>): Option<Change<Option<string>>> {
    match s
    case Absent => Some(Leave)
    case Undefined => Some(Leave)
    case Defined(JNull) => Some(Put(None))
    case Defined(JStr(t)) => Some(Put(Some(t)))
    case Defined(_) => None
  }

  function PlainChange<T>(s: Slot<T>): Change<T> {
    if s.Defined? then Put(s.value) else Leave
  }

  /** The update Prisma receives, or None when a value does not have its column's type. */
  function ToUpdate(f: Fields): Option<UserUpdate> {
    var g := TextChange(f.givenName);
    var n := TextChange(f.familyName);
    var e := TextChange(f.email);
    if g.None? || n.None? || e.None? then None
    else Some(UserUpdate(
      PlainChange(f.userName),
      match f.externalId { case Defined(t) => Put(Some(t)) case _ => Leave },
      g.value, n.value, e.value, PlainChange(f.active), Leave))
  }

  function UpdateRow(row: User, f: Fields): Option<User> {
    match ToUpdate(f)
    case None => None
    case Some(u) => Some(UpdatedUser(row, u))
  }

  /** What the service does to a row: one update with the compiled record. */
  function Batch(row: User, ops: seq<PatchOp>): Option<User> {
    match Compile(ops)
    case None => None
    case Some(f) => UpdateRow(row, f)
  }

  /** The operations one after the other, each as the source reads it, all or nothing. */
  function InOrder(row: User, ops: seq<PatchOp>): Option<User>
    decreases |ops|
  {
    if ops == [] then Some(row)
    else match Batch(row, [ops[0]])
      case None => None
      case Some(next) => InOrder(next, ops[1..])
  }

  /** The record one operation compiles to on its own. */
  function Own(op: PatchOp): Option<Fields> {
    ApplyOp(NO_FIELDS, op)
  }

  predicate Compiles(op: PatchOp) {
    Own(op).Some?
  }

  /** The operation compiles and what it writes has the columns' types. */
  predicate WellTyped(op: PatchOp) {
    Own(op).Some? && ToUpdate(Own(op).value).Some?
  }

  /** The columns whose values are stored as they were sent. */
  datatype TextColumn = GivenNameColumn | FamilyNameColumn | EmailColumn

  function ColumnOf(f: Fields, c: TextColumn): Slot<Json> {
    match c
    case GivenNameColumn => f.givenName
    case FamilyNameColumn => f.familyName
    case EmailColumn => f.email
  }

  function Write(op: PatchOp, c: TextColumn): Slot<Json> {
    if Own(op).Some? then ColumnOf(Own(op).value, c) else Absent
  }

  /** What each operation assigns to the column. */
  function Writes(ops: seq<PatchOp>, c: TextColumn): (w: seq<Slot<Json>>)
    ensures |w| == |ops| && forall i :: 0 <= i < |ops| ==> w[i] == Write(ops[i], c)
  {
    if ops == [] then [] else [Write(ops[0], c)] + Writes(ops[1..], c)
  }

  function EmailWrites(ops: seq<PatchOp>): seq<Slot<Json>> {
    Writes(ops, EmailColumn)
  }

  /** The last assignment assigns `undefined`, after an earlier one gave a value. */
  predicate Loses(w: seq<Slot<Json>>) {
    exists i, j :: 0 <= i < j < |w| && w[i].Defined? && w[j].Undefined? && forall k :: j < k < |w| ==> w[k].Absent?
  }

  /** The last operation that assigns `email` assigns `undefined`, after an earlier one gave it a value. */
  predicate LosesEmail(ops: seq<PatchOp>) {
    Loses(EmailWrites(ops))
  }

  predicate IsText(j: Json) {
    j.JNull? || j.JStr?
  }

  /** The last assignment gives a value that is neither a string nor null. */
  predicate EndsIllTyped(w: seq<Slot<Json>>) {
    exists j :: 0 <= j < |w| && w[j].Defined? && !IsText(w[j].value) && forall k :: j < k < |w| ==> w[k].Absent?
  }

  /** When the batch means what the list says: some operation throws, or every value has its column's
      type and no email is lost, or the last value some column is given has the wrong type. */
  predicate Faithful(ops: seq<PatchOp>) {
    || (exists op :: op in ops && !Compiles(op))
    || (if forall op :: op in ops ==> WellTyped(op) then !LosesEmail(ops)
        else exists c :: EndsIllTyped(Writes(ops, c)))
  }

  // ---------------------------------------------------------------- batching against the in-order meaning

  function Overlay(f: Fields, g: Fields): Fields {
    Fields(Over(f.active, g.active), Over(f.userName, g.userName), Over(f.givenName, g.givenName),
           Over(f.familyName, g.familyName), Over(f.email, g.email), Over(f.externalId, g.externalId))
  }

  lemma ApplyPathOverlays(f: Fields, path: string, v: Value)
    ensures ApplyPath(f, path, v).Some? <==> ApplyPath(NO_FIELDS, path, v).Some?
    ensures ApplyPath(f, path, v).Some? ==> ApplyPath(f, path, v).value == Overlay(f, ApplyPath(NO_FIELDS, path, v).value)
  {
  }

  lemma ApplyObjectOverlays(f: Fields, v: Json)
    ensures ApplyObject(f, v).Some? <==> ApplyObject(NO_FIELDS, v).Some?
    ensures ApplyObject(f, v).Some? ==> ApplyObject(f, v).value == Overlay(f, ApplyObject(NO_FIELDS, v).value)
  {
  }

  /** An operation overlays its own record on whatever was there, and throws or not regardless of it. */
  lemma ApplyOpOverlays(f: Fields, op: PatchOp)
    ensures ApplyOp(f, op).Some? <==> Own(op).Some?
    ensures Own(op).Some? ==> ApplyOp(f, op).value == Overlay(f, Own(op).value)
  {
    if !NoPath(op) {
      ApplyPathOverlays(f, op.path.value, op.value);
    } else if op.value.Some? {
      ApplyObjectOverlays(f, op.value.value);
    }
  }

  lemma {:induction false} CompileFromOverlays(f: Fields, ops: seq<PatchOp>)
    ensures CompileFrom(f, ops).Some? <==> forall op :: op in ops ==> Compiles(op)
    ensures Compile(ops).Some? <==> CompileFrom(f, ops).Some?
    ensures Compile(ops).Some? ==> CompileFrom(f, ops).value == Overlay(f, Compile(ops).value)
    decreases |ops|
  {
    if ops != [] {
      ApplyOpOverlays(f, ops[0]);
      assert forall op :: op in ops <==> op == ops[0] || op in ops[1..];
      if Compiles(ops[0]) {
        CompileFromOverlays(ApplyOp(f, ops[0]).value, ops[1..]);
        CompileFromOverlays(Own(ops[0]).value, ops[1..]);
      }
    }
  }

  /** The compiled record is the first operation's record overlaid with the rest of the list's. */
  lemma CompileHead(ops: seq<PatchOp>)
    requires ops != [] && Compile(ops).Some?
    ensures Own(ops[0]).Some? && Compile(ops[1..]).Some?
    ensures Compile(ops).value == Overlay(Own(ops[0]).value, Compile(ops[1..]).value)
  {
    CompileFromOverlays(NO_FIELDS, ops);
    assert ops[0] in ops;
    CompileFromOverlays(Own(ops[0]).value, ops[1..]);
  }

  /** Only `email` is ever assigned `undefined`. */
  ghost predicate OnlyEmailUndefined(f: Fields) {
    !f.active.Undefined? && !f.userName.Undefined? && !f.givenName.Undefined? && !f.familyName.Undefined?
    && !f.externalId.Undefined?
  }

  lemma {:induction false} CompileOnlyEmailUndefined(ops: seq<PatchOp>)
    requires Compile(ops).Some?
    ensures OnlyEmailUndefined(Compile(ops).value)
    decreases |ops|
  {
    if ops != [] {
      CompileHead(ops);
      CompileOnlyEmailUndefined(ops[1..]);
    }
  }

  /** The last assignment, `undefined` or not. */
  function LastWrite<T>(w: seq<Slot<T>>): Slot<T> {
    if w == [] then Absent else Over(w[0], LastWrite(w[1..]))
  }

  /** The last assignment of a value, if there is one. */
  function LastDefined(w: seq<Slot<Json>>): Slot<Json> {
    if w == [] then Absent
    else if LastDefined(w[1..]).Defined? then LastDefined(w[1..])
    else if w[0].Defined? then w[0]
    else Absent
  }

  lemma {:induction false} LastWriteIs<T>(w: seq<Slot<T>>) returns (j: nat)
    ensures LastWrite(w).Absent? ==> forall i :: 0 <= i < |w| ==> w[i].Absent?
    ensures !LastWrite(w).Absent? ==> j < |w| && w[j] == LastWrite(w) && forall k :: j < k < |w| ==> w[k].Absent?
  {
    j := 0;
    if w != [] {
      var k := LastWriteIs(w[1..]);
      if !LastWrite(w[1..]).Absent? { j := k + 1; }
    }
  }

  lemma {:induction false} LastDefinedIs(w: seq<Slot<Json>>)
    ensures LastDefined(w).Defined? <==> exists i :: 0 <= i < |w| && w[i].Defined?
    ensures LastWrite(w).Defined? ==> LastDefined(w) == LastWrite(w)
    ensures LastWrite(w).Absent? ==> LastDefined(w).Absent?
    ensures !LastDefined(w).Undefined?
  {
    if w != [] {
      LastDefinedIs(w[1..]);
      if LastDefined(w[1..]).Defined? {
        var i :| 0 <= i < |w[1..]| && w[1..][i].Defined?;
        assert w[i + 1].Defined?;
      } else if w[0].Defined? {
        assert w[0].Defined?;
      }
      if i :| 0 <= i < |w| && w[i].Defined? {
        assert i > 0 ==> w[1..][i - 1].Defined?;
      }
    }
  }

  lemma LosesWhen(w: seq<Slot<Json>>)
    ensures Loses(w) <==> LastWrite(w).Undefined? && LastDefined(w).Defined?
  {
    LastDefinedIs(w);
    var j := LastWriteIs(w);
    if LastWrite(w).Undefined? && LastDefined(w).Defined? {
      var i :| 0 <= i < |w| && w[i].Defined?;
      assert i < j;
    }
  }

  lemma {:induction false} LastWriteAt(w: seq<Slot<Json>>, j: nat)
    requires j < |w| && !w[j].Absent? && forall k :: j < k < |w| ==> w[k].Absent?
    ensures LastWrite(w) == w[j]
  {
    if j == 0 {
      var i := LastWriteIs(w[1..]);
      assert LastWrite(w[1..]).Absent?;
    } else {
      LastWriteAt(w[1..], j - 1);
    }
  }

  lemma EndsIllTypedWhen(w: seq<Slot<Json>>)
    ensures EndsIllTyped(w) <==> LastWrite(w).Defined? && !IsText(LastWrite(w).value)
  {
    var i := LastWriteIs(w);
    if j :| 0 <= j < |w| && w[j].Defined? && !IsText(w[j].value) && forall k :: j < k < |w| ==> w[k].Absent? {
      LastWriteAt(w, j);
    }
  }

  /** The compiled value of a column is the last assignment of the list. */
  lemma {:induction false} CompiledColumn(ops: seq<PatchOp>, c: TextColumn)
    requires Compile(ops).Some?
    ensures ColumnOf(Compile(ops).value, c) == LastWrite(Writes(ops, c))
    decreases |ops|
  {
    if ops != [] {
      CompileHead(ops);
      CompiledColumn(ops[1..], c);
      assert Writes(ops, c)[1..] == Writes(ops[1..], c);
    }
  }

  /** The compiled email is the last assignment of the list. */
  lemma CompiledEmail(ops: seq<PatchOp>)
    requires Compile(ops).Some?
    ensures Compile(ops).value.email == LastWrite(EmailWrites(ops))
  {
    CompiledColumn(ops, EmailColumn);
  }

  lemma RejectedIs(f: Fields)
    ensures ToUpdate(f).None? <==> exists c :: TextChange(ColumnOf(f, c)).None?
  {
    if ToUpdate(f).None? {
      assert TextChange(ColumnOf(f, GivenNameColumn)).None? || TextChange(ColumnOf(f, FamilyNameColumn)).None?
             || TextChange(ColumnOf(f, EmailColumn)).None?;
    }
  }

  lemma ColumnRejected(ops: seq<PatchOp>, c: TextColumn)
    requires Compile(ops).Some?
    ensures EndsIllTyped(Writes(ops, c)) <==> TextChange(ColumnOf(Compile(ops).value, c)).None?
  {
    CompiledColumn(ops, c);
    EndsIllTypedWhen(Writes(ops, c));
  }

  /** A list whose operations all compile ends with a value of the wrong type in some column exactly when
      the compiled record is rejected. */
  lemma RejectedWhen(ops: seq<PatchOp>)
    requires Compile(ops).Some?
    ensures ToUpdate(Compile(ops).value).None? <==> exists c :: EndsIllTyped(Writes(ops, c))
  {
    RejectedIs(Compile(ops).value);
    if c :| TextChange(ColumnOf(Compile(ops).value, c)).None? {
      ColumnRejected(ops, c);
    }
    if c :| EndsIllTyped(Writes(ops, c)) {
      ColumnRejected(ops, c);
      assert TextChange(ColumnOf(Compile(ops).value, c)).None?;
    }
  }

  /** A list loses an email exactly when its record ends with `undefined` although a value was given. */
  lemma LosesEmailWhen(ops: seq<PatchOp>)
    requires Compile(ops).Some?
    ensures LosesEmail(ops) <==> Compile(ops).value.email.Undefined? && LastDefined(EmailWrites(ops)).Defined?
  {
    CompiledEmail(ops);
    LosesWhen(EmailWrites(ops));
  }

  ghost predicate SameButEmail(a: User, b: User) {
    a.(email := b.email) == b
  }

  function NewEmail(before: Option<string>, s: Slot<Json>): Option<string>
    requires TextChange(s).Some?
  {
    Updated(before, TextChange(s).value)
  }

  lemma BatchOne(row: User, op: PatchOp)
    ensures Batch(row, [op]) == if Own(op).Some? then UpdateRow(row, Own(op).value) else None
  {
    if Own(op).Some? {
      assert CompileFrom(NO_FIELDS, [op]) == CompileFrom(Own(op).value, [op][1..]);
      assert CompileFrom(Own(op).value, []) == Own(op);
    }
  }

  /** Two updates in a row against their overlay. */
  lemma OverlayUpdates(row: User, f: Fields, g: Fields)
    requires ToUpdate(f).Some? && ToUpdate(g).Some? && OnlyEmailUndefined(g)
    ensures ToUpdate(Overlay(f, g)).Some?
    ensures SameButEmail(UpdateRow(row, Overlay(f, g)).value, UpdateRow(UpdateRow(row, f).value, g).value)
  {
  }

  /** For a well-typed list both ways succeed and agree on every column but email. */
  lemma {:induction false} WellTypedAgree(row: User, ops: seq<PatchOp>)
    requires forall op :: op in ops ==> WellTyped(op)
    ensures Compile(ops).Some? && Batch(row, ops).Some? && InOrder(row, ops).Some?
    ensures SameButEmail(Batch(row, ops).value, InOrder(row, ops).value)
    decreases |ops|
  {
    CompileFromOverlays(NO_FIELDS, ops);
    if ops != [] {
      var rest := ops[1..];
      assert WellTyped(ops[0]);
      CompileHead(ops);
      BatchOne(row, ops[0]);
      WellTypedAgree(UpdateRow(row, Own(ops[0]).value).value, rest);
      CompileOnlyEmailUndefined(rest);
      OverlayUpdates(row, Own(ops[0]).value, Compile(rest).value);
    }
  }

  /** In order, the email is the last one given. */
  lemma {:induction false} InOrderEmail(row: User, ops: seq<PatchOp>)
    requires forall op :: op in ops ==> WellTyped(op)
    ensures InOrder(row, ops).Some? && TextChange(LastDefined(EmailWrites(ops))).Some?
    ensures InOrder(row, ops).value.email == NewEmail(row.email, LastDefined(EmailWrites(ops)))
    decreases |ops|
  {
    WellTypedAgree(row, ops);
    if ops != [] {
      assert WellTyped(ops[0]);
      BatchOne(row, ops[0]);
      assert EmailWrites(ops)[1..] == EmailWrites(ops[1..]);
      InOrderEmail(UpdateRow(row, Own(ops[0]).value).value, ops[1..]);
    }
  }

  lemma WellTypedRuns(row: User, ops: seq<PatchOp>)
    requires forall op :: op in ops ==> WellTyped(op)
    ensures Compile(ops).Some? && Batch(row, ops).Some? && InOrder(row, ops).Some?
    ensures SameButEmail(Batch(row, ops).value, InOrder(row, ops).value)
    ensures TextChange(LastDefined(EmailWrites(ops))).Some? && TextChange(Compile(ops).value.email).Some?
    ensures InOrder(row, ops).value.email == NewEmail(row.email, LastDefined(EmailWrites(ops)))
    ensures Batch(row, ops).value.email == NewEmail(row.email, Compile(ops).value.email)
  {
    WellTypedAgree(row, ops);
    InOrderEmail(row, ops);
  }

  lemma {:induction false} IllTypedStopsInOrder(row: User, ops: seq<PatchOp>)
    requires exists op :: op in ops && !WellTyped(op)
    ensures InOrder(row, ops).None?
    decreases |ops|
  {
    BatchOne(row, ops[0]);
    if WellTyped(ops[0]) {
      var op :| op in ops && !WellTyped(op);
      assert op in ops[1..];
      IllTypedStopsInOrder(UpdateRow(row, Own(ops[0]).value).value, ops[1..]);
    }
  }

  const SOME_ROW := User("", None, None, None, None, true, None)

  /** The two emails agree whatever the row had, unless the list loses one; then the row keeps its own. */
  lemma EmailsAgree(w: seq<Slot<Json>>, before: Option<string>)
    requires TextChange(LastWrite(w)).Some? && TextChange(LastDefined(w)).Some?
    ensures !Loses(w) ==> NewEmail(before, LastWrite(w)) == NewEmail(before, LastDefined(w))
    ensures Loses(w) ==> NewEmail(before, LastWrite(w)) == before && LastDefined(w).Defined?
  {
    LastDefinedIs(w);
    LosesWhen(w);
  }

  /** Only email can come out differently when every value has its column's type. */
  lemma OnlyEmailCanDiffer(row: User, ops: seq<PatchOp>)
    requires forall op :: op in ops ==> WellTyped(op)
    ensures Batch(row, ops).Some? && InOrder(row, ops).Some?
    ensures SameButEmail(Batch(row, ops).value, InOrder(row, ops).value)
    ensures !LosesEmail(ops) ==> Batch(row, ops) == InOrder(row, ops)
  {
    WellTypedRuns(row, ops);
    CompiledEmail(ops);
    EmailsAgree(EmailWrites(ops), row.email);
  }

  /** A list that loses an email shows it on some row. */
  lemma LossShows(ops: seq<PatchOp>)
    requires (forall op :: op in ops ==> WellTyped(op)) && LosesEmail(ops)
    ensures exists row :: Batch(row, ops) != InOrder(row, ops)
  {
    var w := EmailWrites(ops);
    var row1, row2 := SOME_ROW, SOME_ROW.(email := Some(""));
    WellTypedRuns(row1, ops);
    WellTypedRuns(row2, ops);
    CompiledEmail(ops);
    EmailsAgree(w, row1.email);
    EmailsAgree(w, row2.email);
    assert Batch(row1, ops) != InOrder(row1, ops) || Batch(row2, ops) != InOrder(row2, ops);
  }

  /** A list with an operation that throws or is ill-typed is refused in order; the batch is refused as
      well exactly when something throws or a column ends ill-typed. */
  lemma IllTypedLists(ops: seq<PatchOp>)
    requires exists op :: op in ops && !WellTyped(op)
    ensures forall row :: InOrder(row, ops).None?
    ensures forall row :: Batch(row, ops).None? <==>
              (exists op :: op in ops && !Compiles(op)) || exists c :: EndsIllTyped(Writes(ops, c))
  {
    CompileFromOverlays(NO_FIELDS, ops);
    forall row ensures InOrder(row, ops).None? {
      IllTypedStopsInOrder(row, ops);
    }
    if Compile(ops).Some? {
      RejectedWhen(ops);
    }
  }

  /** The single compiled update means the same as the operations in order, for every row, exactly for
      the faithful lists. */
  lemma BatchMeansInOrder(ops: seq<PatchOp>)
    ensures (forall row :: Batch(row, ops) == InOrder(row, ops)) <==> Faithful(ops)
  {
    if forall op :: op in ops ==> WellTyped(op) {
      if LosesEmail(ops) {
        LossShows(ops);
      } else {
        forall row ensures Batch(row, ops) == InOrder(row, ops) {
          OnlyEmailCanDiffer(row, ops);
        }
      }
    } else {
      IllTypedLists(ops);
      assert InOrder(SOME_ROW, ops).None?;
      assert Batch(SOME_ROW, ops).None? <==> Faithful(ops);
    }
  }

  // ---------------------------------------------------------------- the forms an identity provider sends

  /** The object form that carries every attribute of a row. */
  function SetAll(u: User): PatchOp
    requires u.externalId.Some? && u.givenName.Some? && u.familyName.Some? && u.email.Some?
  {
    PatchOp("replace", None, Some(JObj(map[
      "active" := JBool(u.active),
      "userName" := JStr(u.userName),
      "externalId" := JStr(u.externalId.value),
      "name" := JObj(map["givenName" := JStr(u.givenName.value), "familyName" := JStr(u.familyName.value)]),
      "emails" := JArr([JObj(map["value" := JStr(u.email.value)])])])))
  }

  function SetPath(path: string, v: Json): PatchOp {
    PatchOp("replace", Some(path), Some(v))
  }

  /** The same as one operation for each path. */
  function SetEach(u: User): seq<PatchOp>
    requires u.externalId.Some? && u.givenName.Some? && u.familyName.Some? && u.email.Some?
  {
    [SetPath("active", JBool(u.active)),
     SetPath("userName", JStr(u.userName)),
     SetPath("externalId", JStr(u.externalId.value)),
     SetPath("name.givenName", JStr(u.givenName.value)),
     SetPath("name.familyName", JStr(u.familyName.value)),
     SetPath("emails", JArr([JObj(map["value" := JStr(u.email.value)])]))]
  }

  function AllFields(u: User): Fields
    requires u.externalId.Some? && u.givenName.Some? && u.familyName.Some? && u.email.Some?
  {
    Fields(Defined(u.active), Defined(u.userName), Defined(JStr(u.givenName.value)), Defined(JStr(u.familyName.value)),
           Defined(JStr(u.email.value)), Defined(u.externalId.value))
  }

  lemma SetAllCompiles(u: User)
    requires u.externalId.Some? && u.givenName.Some? && u.familyName.Some? && u.email.Some?
    ensures Own(SetAll(u)) == Some(AllFields(u))
  {
    assert IsOp("replace", "replace");
    var v := SetAll(u).value.value;
    assert ObjectEmail(v) == Some(Defined(JStr(u.email.value)));
    assert NamePart(v, "givenName") == Defined(JStr(u.givenName.value));
    assert NamePart(v, "familyName") == Defined(JStr(u.familyName.value));
  }

  lemma SetPathApplies(f: Fields, path: string, v: Json)
    requires path != ""
    ensures ApplyOp(f, SetPath(path, v)) == ApplyPath(f, path, Some(v))
  {
    assert IsOp("replace", "replace");
  }

  /** A list compiles through the records its operations lead to. */
  lemma {:induction false} CompileThrough(ops: seq<PatchOp>, records: seq<Fields>)
    requires |records| == |ops| + 1
    requires forall i :: 0 <= i < |ops| ==> ApplyOp(records[i], ops[i]) == Some(records[i + 1])
    ensures CompileFrom(records[0], ops) == Some(records[|ops|])
    decreases |ops|
  {
    if ops != [] {
      CompileThrough(ops[1..], records[1..]);
    }
  }

  lemma SetEachCompiles(u: User)
    requires u.externalId.Some? && u.givenName.Some? && u.familyName.Some? && u.email.Some?
    ensures Compile(SetEach(u)) == Some(AllFields(u))
  {
    var f1 := NO_FIELDS.(active := Defined(u.active));
    var f2 := f1.(userName := Defined(u.userName));
    var f3 := f2.(externalId := Defined(u.externalId.value));
    var f4 := f3.(givenName := Defined(JStr(u.givenName.value)));
    var f5 := f4.(familyName := Defined(JStr(u.familyName.value)));
    SetPathApplies(NO_FIELDS, "active", JBool(u.active));
    SetPathApplies(f1, "userName", JStr(u.userName));
    SetPathApplies(f2, "externalId", JStr(u.externalId.value));
    SetPathApplies(f3, "name.givenName", JStr(u.givenName.value));
    SetPathApplies(f4, "name.familyName", JStr(u.familyName.value));
    SetPathApplies(f5, "emails", JArr([JObj(map["value" := JStr(u.email.value)])]));
    CompileThrough(SetEach(u), [NO_FIELDS, f1, f2, f3, f4, f5, AllFields(u)]);
  }

  /** A patch that carries every attribute of `u`, in one object or path by path, turns any row into `u`
      but for the password: each key and each path writes its own column. */
  lemma PatchRebuildsUser(row: User, u: User)
    requires u.externalId.Some? && u.givenName.Some? && u.familyName.Some? && u.email.Some?
    ensures Batch(row, [SetAll(u)]) == Some(u.(passwordHash := row.passwordHash))
    ensures Batch(row, SetEach(u)) == Some(u.(passwordHash := row.passwordHash))
  {
    SetAllCompiles(u);
    BatchOne(row, SetAll(u));
    SetEachCompiles(u);
    assert UpdateRow(row, AllFields(u)) == Some(u.(passwordHash := row.passwordHash));
  }

  /** Deactivating as the identity provider does, by an object or by the path, changes `active` alone. */
  lemma DeactivationTouchesOnlyActive(row: User, active: bool)
    ensures Batch(row, [PatchOp("replace", None, Some(JObj(map["active" := JBool(active)])))]) == Some(row.(active := active))
    ensures Batch(row, [SetPath("active", JBool(active))]) == Some(row.(active := active))
  {
    assert IsOp("replace", "replace");
    BatchOne(row, PatchOp("replace", None, Some(JObj(map["active" := JBool(active)]))));
    SetPathApplies(NO_FIELDS, "active", JBool(active));
    BatchOne(row, SetPath("active", JBool(active)));
  }

  lemma InOrderTwo(row: User, a: PatchOp, b: PatchOp, next: User)
    requires Batch(row, [a]) == Some(next)
    ensures InOrder(row, [a, b]) == Batch(next, [b])
  {
    var ops := [a, b];
    assert [ops[0]] == [a] && ops[1..] == [b] && [b][1..] == [];
    assert InOrder(row, ops) == InOrder(next, [b]);
    assert [[b][0]] == [b];
    if Batch(next, [b]).Some? {
      assert InOrder(next, [b]) == InOrder(Batch(next, [b]).value, []);
    }
  }

  /** An email entry without its address. */
  const BLANK_EMAIL := PatchOp("replace", None, Some(JObj(map["emails" := JArr([JObj(map[])])])))

  /** A list that loses an email: an address, then an entry without one. In order the row would have the
      address; the single update leaves the row as it was. */
  lemma LostEmailExample(row: User, address: string)
    ensures InOrder(row, [SetPath("emails", JStr(address)), BLANK_EMAIL]) == Some(row.(email := Some(address)))
    ensures Batch(row, [SetPath("emails", JStr(address)), BLANK_EMAIL]) == Some(row)
  {
    var given := NO_FIELDS.(email := Defined(JStr(address)));
    var blank := NO_FIELDS.(email := Undefined);
    var ops := [SetPath("emails", JStr(address)), BLANK_EMAIL];
    SetPathApplies(NO_FIELDS, "emails", JStr(address));
    assert IsOp("replace", "replace");
    assert ObjectEmail(BLANK_EMAIL.value.value) == Some(Undefined);
    assert Own(BLANK_EMAIL) == Some(blank);
    ApplyOpOverlays(given, BLANK_EMAIL);
    CompileThrough(ops, [NO_FIELDS, given, blank]);
    BatchOne(row, ops[0]);
    BatchOne(row.(email := Some(address)), ops[1]);
    InOrderTwo(row, ops[0], ops[1], row.(email := Some(address)));
  }

  /** An empty path is no path. */
  lemma EmptyPathIsNone(op: PatchOp)
    ensures Own(op.(path := Some(""))) == Own(op.(path := None))
  {
  }
}

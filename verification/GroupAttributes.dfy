/** What each operation of a group PATCH names, and what the PATCH does to the name and the external id, read
    from the operations themselves. */
module GroupAttributes {
  import opened Prelude
  import opened Tables
  import opened Json
  import opened Resources
  import opened Api
  import opened SerialCalls
  import opened GroupStore
  import opened Bodies
  import GroupPatch
  import MemberPath

  /** A path-less replacement whose value is an object with this key. */
  predicate SetsKey(op: PatchOp, key: string) {
    && IsOp(op.op, "replace") && NoPath(op)
    && op.value.Some? && op.value.value.JObj? && key in op.value.value.fields
  }

  /** The name comes from a replacement of the path `displayName`, or from that key of an object. */
  predicate SetsName(op: PatchOp) {
    (IsOp(op.op, "replace") && op.path == Some("displayName")) || SetsKey(op, "displayName")
  }

  /** The external id comes from an object alone. */
  predicate SetsExternalId(op: PatchOp) {
    SetsKey(op, "externalId")
  }

  function NameText(op: PatchOp): Option<string>
    requires SetsName(op)
  {
    if NoPath(op) then Text(Some(op.value.value.fields["displayName"])) else Text(op.value)
  }

  function ExternalIdText(op: PatchOp): Option<string>
    requires SetsExternalId(op)
  {
    Text(Some(op.value.value.fields["externalId"]))
  }

  /** The last operation that sets the name sets `text`. */
  ghost predicate LastName(ops: seq<PatchOp>, text: string) {
    exists i :: 0 <= i < |ops| && SetsName(ops[i]) && NameText(ops[i]) == Some(text)
                && forall k :: i < k < |ops| ==> !SetsName(ops[k])
  }

  ghost predicate LastExternalId(ops: seq<PatchOp>, text: string) {
    exists i :: 0 <= i < |ops| && SetsExternalId(ops[i]) && ExternalIdText(ops[i]) == Some(text)
                && forall k :: i < k < |ops| ==> !SetsExternalId(ops[k])
  }

  /** The last operation that sets an attribute decides it; without one it stays. */
  ghost predicate AttributesSet(before: Group, after: Group, ops: seq<PatchOp>) {
    && (if exists op :: op in ops && SetsName(op) then LastName(ops, after.displayName)
        else after.displayName == before.displayName)
    && (if exists op :: op in ops && SetsExternalId(op) then
          after.externalId.Some? && LastExternalId(ops, after.externalId.value)
        else after.externalId == before.externalId)
  }

  /** One operation on its own. */
  lemma OwnAttributes(op: PatchOp)
    requires GroupPatch.Own(op).Some?
    ensures GroupPatch.Own(op).value.displayName == if SetsName(op) then NameText(op) else None
    ensures GroupPatch.Own(op).value.externalId == if SetsExternalId(op) then ExternalIdText(op) else None
    ensures SetsName(op) ==> NameText(op).Some?
    ensures SetsExternalId(op) ==> ExternalIdText(op).Some?
  {
  }

  lemma {:induction false} CompiledName(ops: seq<PatchOp>)
    requires GroupPatch.Compile(ops).Some?
    ensures var name := GroupPatch.Compile(ops).value.displayName;
      && (name.Some? <==> exists op :: op in ops && SetsName(op))
      && (name.Some? ==> LastName(ops, name.value))
    decreases |ops|
  {
    if ops != [] {
      GroupPatch.CompileHead(ops);
      OwnAttributes(ops[0]);
      CompiledName(ops[1..]);
      assert forall op :: op in ops <==> op == ops[0] || op in ops[1..];
      var name := GroupPatch.Compile(ops[1..]).value.displayName;
      if name.Some? {
        var i :| 0 <= i < |ops[1..]| && SetsName(ops[1..][i]) && NameText(ops[1..][i]) == name
                 && forall k :: i < k < |ops[1..]| ==> !SetsName(ops[1..][k]);
        assert SetsName(ops[i + 1]);
        forall k | i + 1 < k < |ops| ensures !SetsName(ops[k]) { assert ops[k] == ops[1..][k - 1]; }
      } else {
        forall k | 0 < k < |ops| ensures !SetsName(ops[k]) { assert ops[k] in ops[1..]; }
        assert SetsName(ops[0]) ==> LastName(ops, NameText(ops[0]).value);
      }
    }
  }

  lemma {:induction false} CompiledExternalId(ops: seq<PatchOp>)
    requires GroupPatch.Compile(ops).Some?
    ensures var ext := GroupPatch.Compile(ops).value.externalId;
      && (ext.Some? <==> exists op :: op in ops && SetsExternalId(op))
      && (ext.Some? ==> LastExternalId(ops, ext.value))
    decreases |ops|
  {
    if ops != [] {
      GroupPatch.CompileHead(ops);
      OwnAttributes(ops[0]);
      CompiledExternalId(ops[1..]);
      assert forall op :: op in ops <==> op == ops[0] || op in ops[1..];
      var ext := GroupPatch.Compile(ops[1..]).value.externalId;
      if ext.Some? {
        var i :| 0 <= i < |ops[1..]| && SetsExternalId(ops[1..][i]) && ExternalIdText(ops[1..][i]) == ext
                 && forall k :: i < k < |ops[1..]| ==> !SetsExternalId(ops[1..][k]);
        assert SetsExternalId(ops[i + 1]);
        forall k | i + 1 < k < |ops| ensures !SetsExternalId(ops[k]) { assert ops[k] == ops[1..][k - 1]; }
      } else {
        forall k | 0 < k < |ops| ensures !SetsExternalId(ops[k]) { assert ops[k] in ops[1..]; }
        assert SetsExternalId(ops[0]) ==> LastExternalId(ops, ExternalIdText(ops[0]).value);
      }
    }
  }

  /** For every row and every list that compiles: the last operation that sets the name, and the last one
      that sets the external id, decide; no other touches either. */
  lemma PatchedAttributes(row: Group, ops: seq<PatchOp>)
    requires GroupPatch.Compile(ops).Some?
    ensures AttributesSet(row, PatchedRow(row, GroupPatch.Compile(ops).value), ops)
  {
    CompiledName(ops);
    CompiledExternalId(ops);
  }

  /** A group PATCH that succeeds sets the attributes that its operations give, and shows the group. */
  lemma GroupPatched(db: Database, id: Id, newId: Id, ops: seq<PatchOp>)
    requires Valid(db) && id in db.groups.rows && GroupPatch.Compile(ops).Some?
    requires Serial(db, newId, PatchGroup(id, GroupPatch.Compile(ops).value)).1.status == 200
    ensures var (db', reply) := Serial(db, newId, PatchGroup(id, GroupPatch.Compile(ops).value));
      && id in db'.groups.rows
      && AttributesSet(db.groups.rows[id], db'.groups.rows[id], ops)
      && ShowsGroup(db', reply.body, id)
  {
    PatchedAttributes(db.groups.rows[id], ops);
    GroupAnswers(db, newId, PatchGroup(id, GroupPatch.Compile(ops).value));
  }

  // ---------------------------------------------------------------- members, and what throws

  predicate AddsListed(op: PatchOp) {
    IsOp(op.op, "add") && (op.path == Some("members") || op.path == None || op.path == Some(""))
  }

  predicate RemovesListed(op: PatchOp) {
    IsOp(op.op, "remove") && op.path == Some("members")
  }

  /** Some entry of the list is an object with this `value`, which counts when it is truthy. */
  ghost predicate Lists(v: Value, j: Json) {
    && v.Some? && v.value.JArr? && Truthy(Some(j))
    && exists i :: 0 <= i < |v.value.items| && v.value.items[i].JObj?
                   && "value" in v.value.items[i].fields && v.value.items[i].fields["value"] == j
  }

  /** The path of a removal, other than `members`, has the pattern, first with this id. */
  ghost predicate NamesByPath(op: PatchOp, id: Id) {
    && IsOp(op.op, "remove") && op.path.Some? && op.path != Some("") && op.path != Some("members")
    && exists i: nat :: MemberPath.Leftmost(op.path.value, i, id)
  }

  /** A value that `for ... of` cannot go through. */
  predicate NotIterable(v: Value) {
    v.Some? && (v.value.JBool? || v.value.JNum? || v.value.JObj?)
  }

  ghost predicate Throws(op: PatchOp) {
    || ((AddsListed(op) || RemovesListed(op)) && NotIterable(op.value))
    || (SetsName(op) && NameText(op) == None)
    || (SetsExternalId(op) && ExternalIdText(op) == None)
  }

  /** What each operation contributes to the members, and when it throws. */
  lemma OwnMembers(op: PatchOp, j: Json)
    ensures GroupPatch.Own(op).None? <==> Throws(op)
    ensures GroupPatch.Own(op).Some? ==>
              && (j in GroupPatch.Own(op).value.addIds <==> AddsListed(op) && Lists(op.value, j))
              && (j in GroupPatch.Own(op).value.removeIds <==>
                    (RemovesListed(op) && Lists(op.value, j)) || (j.JStr? && NamesByPath(op, j.s)))
  {
    if op.value.Some? && op.value.value.JArr? {
      ListedAre(op.value.value.items, j);
    }
    if op.path.Some? && j.JStr? {
      MemberPath.ExtractIsLeftmost(op.path.value, j.s);
    }
  }

  lemma ListedAre(items: seq<Json>, j: Json)
    ensures j in GroupPatch.ItemIds(items) <==> Lists(Some(JArr(items)), j)
  {
    GroupPatch.ItemIdsAre(items, j);
    forall i | 0 <= i < |items|
      ensures Truthy(Property(items[i], "value")) && Property(items[i], "value").value == j
              <==> Truthy(Some(j)) && items[i].JObj? && "value" in items[i].fields && items[i].fields["value"] == j
    {
    }
  }

  // ---------------------------------------------------------------- the three forms

  /** For every row and text: a replacement by path, or by an object with one key or with both, sets exactly
      the attributes it names. */
  lemma AttributeForms(row: Group, path: PatchOp, name: PatchOp, ext: PatchOp, both: PatchOp, s: string, t: string)
    requires path == PatchOp("replace", Some("displayName"), Some(JStr(s)))
    requires name == PatchOp("replace", None, Some(JObj(map["displayName" := JStr(s)])))
    requires ext == PatchOp("replace", None, Some(JObj(map["externalId" := JStr(t)])))
    requires both == PatchOp("replace", None, Some(JObj(map["displayName" := JStr(s), "externalId" := JStr(t)])))
    ensures GroupPatch.Own(path).Some? && PatchedRow(row, GroupPatch.Own(path).value) == row.(displayName := s)
    ensures GroupPatch.Own(name).Some? && PatchedRow(row, GroupPatch.Own(name).value) == row.(displayName := s)
    ensures GroupPatch.Own(ext).Some? && PatchedRow(row, GroupPatch.Own(ext).value) == row.(externalId := Some(t))
    ensures GroupPatch.Own(both).Some? && PatchedRow(row, GroupPatch.Own(both).value) == Group(s, Some(t))
  {
    assert IsOp("replace", "replace") && !IsOp("replace", "add") && !IsOp("replace", "remove");
  }
}

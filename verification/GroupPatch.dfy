/** src/scim/groups/apply-group-patch.ts: a list of patch operations becomes "all removes, then all adds". */
module GroupPatch {
  import opened Prelude
  import opened Tables
  import opened Json
  import MemberPath

  /** GroupPatchResult. The ids are the truthy `value` entries the client sent, of whatever JSON type. */
  datatype Patch = Patch(displayName: Option<string>, externalId: Option<string>, addIds: seq<Json>, removeIds: seq<Json>)

  const NO_PATCH := Patch(None, None, [], [])

  // ---------------------------------------------------------------- the operations as functions

  /** member?.value, when truthy */
  function EntryIds(item: Json): seq<Json> {
    var v := Property(item, "value");
    if Truthy(v) then [v.value] else []
  }

  function ItemIds(items: seq<Json>): seq<Json> {
    if items == [] then [] else EntryIds(items[0]) + ItemIds(items[1..])
  }

  /** What the `for ... of` loop collects: a string has only characters, and a value that is neither
      an array, a string nor nullish cannot be iterated (None). */
  function ListedIds(v: Value): Option<seq<Json>> {
    if Nullish(v) || v.value.JStr? then Some([])
    else if v.value.JArr? then Some(ItemIds(v.value.items))
    else None
  }

  predicate IsMemberAdd(op: PatchOp) {
    IsOp(op.op, "add") && (op.path == Some("members") || NoPath(op))
  }

  /** String(value[key]) when `key in value`; the outer None is a thrown TypeError. */
  function KeyText(v: Json, key: string): Option<Option<string>> {
    var p := Property(v, key);
    if p.None? then Some(None)
    else match Text(p)
      case None => None
      case Some(t) => Some(Some(t))
  }

  function Newer<T>(older: Option<T>, newer: Option<T>): Option<T> {
    if newer.Some? then newer else older
  }

  /** What one operation contributes: members to add or remove, or attributes. None when it throws. */
  function Own(op: PatchOp): Option<Patch> {
    if IsMemberAdd(op) then
      match ListedIds(op.value)
      case None => None
      case Some(ids) => Some(NO_PATCH.(addIds := ids))
    else if IsOp(op.op, "remove") then
      if op.path == Some("members") then
        match ListedIds(op.value)
        case None => None
        case Some(ids) => Some(NO_PATCH.(removeIds := ids))
      else if !NoPath(op) then
        match MemberPath.Extract(op.path.value)
        case None => Some(NO_PATCH)
        case Some(id) => Some(NO_PATCH.(removeIds := [JStr(id)]))
      else Some(NO_PATCH)
    else if IsOp(op.op, "replace") then
      if op.path == Some("displayName") then
        match Text(op.value)
        case None => None
        case Some(t) => Some(NO_PATCH.(displayName := Some(t)))
      else if NoPath(op) && op.value.Some? && (op.value.value.JObj? || op.value.value.JArr?) then
        var name := KeyText(op.value.value, "displayName");
        var ext := KeyText(op.value.value, "externalId");
        if name.None? || ext.None? then None
        else Some(NO_PATCH.(displayName := name.value, externalId := ext.value))
      else Some(NO_PATCH)
    else Some(NO_PATCH)
  }

  /** Ids are pushed at the end of their list; a later attribute overwrites an earlier one. */
  function Append(p: Patch, q: Patch): Patch {
    Patch(Newer(p.displayName, q.displayName), Newer(p.externalId, q.externalId),
          p.addIds + q.addIds, p.removeIds + q.removeIds)
  }

  function CompileFrom(p: Patch, ops: seq<PatchOp>): Option<Patch>
    decreases |ops|
  {
    if ops == [] then Some(p)
    else match Own(ops[0])
      case None => None
      case Some(q) => CompileFrom(Append(p, q), ops[1..])
  }

  /** applyGroupPatch; None when it throws. */
  function Compile(ops: seq<PatchOp>): Option<Patch> {
    CompileFrom(NO_PATCH, ops)
  }

  // ---------------------------------------------------------------- the operations as written

  /** The inner loops: push every truthy id; a false `ok` stands for a value that cannot be iterated. */
  method PushIds(into: seq<Json>, v: Value) returns (ok: bool, out: seq<Json>)
    ensures ok <==> ListedIds(v).Some?
    ensures ok ==> out == into + ListedIds(v).value
  {
    out := into;
    if Nullish(v) || v.value.JStr? { return true, out; }
    if !v.value.JArr? { return false, out; }
    var items := v.value.items;
    for i := 0 to |items|
      invariant out + ItemIds(items[i..]) == into + ItemIds(items)
    {
      assert items[i..][1..] == items[i + 1..];
      var value := Property(items[i], "value");
      if Truthy(value) { out := out + [value.value]; }
    }
    assert items[|items|..] == [];
    ok := true;
  }

  method ApplyGroupPatch(ops: seq<PatchOp>) returns (r: Option<Patch>)
    ensures r == Compile(ops)
  {
    var displayName, externalId: Option<string> := None, None;
    var addIds, removeIds: seq<Json> := [], [];
    for i := 0 to |ops|
      invariant CompileFrom(Patch(displayName, externalId, addIds, removeIds), ops[i..]) == Compile(ops)
    {
      var op := ops[i];
      assert ops[i..][1..] == ops[i + 1..];
      ghost var before := Patch(displayName, externalId, addIds, removeIds);
      var ok := true;
      if IsOp(op.op, "add") && (op.path == Some("members") || NoPath(op)) {
        ok, addIds := PushIds(addIds, op.value);
      } else if IsOp(op.op, "remove") {
        if op.path == Some("members") {
          ok, removeIds := PushIds(removeIds, op.value);
        } else if !NoPath(op) {
          var id := MemberPath.Extract(op.path.value);
          if id.Some? { removeIds := removeIds + [JStr(id.value)]; }
        }
      } else if IsOp(op.op, "replace") {
        if op.path == Some("displayName") {
          var t := Text(op.value);
          if t.None? { return None; }
          displayName := t;
        } else if NoPath(op) && op.value.Some? && (op.value.value.JObj? || op.value.value.JArr?) {
          var n := Property(op.value.value, "displayName");
          if n.Some? {
            var t := Text(n);
            if t.None? { return None; }
            displayName := t;
          }
          var x := Property(op.value.value, "externalId");
          if x.Some? {
            var t := Text(x);
            if t.None? { return None; }
            externalId := t;
          }
        }
      }
      if !ok { return None; }
      assert Patch(displayName, externalId, addIds, removeIds) == Append(before, Own(op).value);
    }
    return Some(Patch(displayName, externalId, addIds, removeIds));
  }

  // ---------------------------------------------------------------- what a patch does to a membership

  /** An id has to be a string for Prisma. */
  predicate AllStrings(ids: seq<Json>) {
    forall j :: j in ids ==> j.JStr?
  }

  predicate Typed(p: Patch) {
    AllStrings(p.addIds) && AllStrings(p.removeIds)
  }

  function Ids(js: seq<Json>): (r: seq<Id>)
    requires AllStrings(js)
    ensures forall x :: x in r <==> JStr(x) in js
  {
    if js == [] then [] else [js[0].s] + Ids(js[1..])
  }

  /** The executed batch: M minus everything removed, plus everything added. */
  function Result(m: set<Id>, p: Patch): (r: set<Id>)
    requires Typed(p)
  {
    m - Elems(Ids(p.removeIds)) + Elems(Ids(p.addIds))
  }

  /** The membership after the whole request; None when it throws or is rejected. */
  function Batch(m: set<Id>, ops: seq<PatchOp>): Option<set<Id>> {
    match Compile(ops)
    case None => None
    case Some(p) => if Typed(p) then Some(Result(m, p)) else None
  }

  /** The operations one after the other, each as the source reads it, all or nothing. */
  function InOrder(m: set<Id>, ops: seq<PatchOp>): Option<set<Id>>
    decreases |ops|
  {
    if ops == [] then Some(m)
    else match Batch(m, [ops[0]])
      case None => None
      case Some(next) => InOrder(next, ops[1..])
  }

  predicate WellTyped(op: PatchOp) {
    Own(op).Some? && Typed(Own(op).value)
  }

  predicate AllWellTyped(ops: seq<PatchOp>) {
    forall op :: op in ops ==> WellTyped(op)
  }

  datatype Mention = Never | Added | Removed

  function OpMention(op: PatchOp, x: Id): Mention {
    if Own(op).None? then Never
    else if JStr(x) in Own(op).value.addIds then Added
    else if JStr(x) in Own(op).value.removeIds then Removed
    else Never
  }

  /** How the last operation that mentions `x` mentions it. */
  function LastMention(ops: seq<PatchOp>, x: Id): Mention
    decreases |ops|
  {
    if ops == [] then Never
    else if LastMention(ops[1..], x) != Never then LastMention(ops[1..], x)
    else OpMention(ops[0], x)
  }

  function AddedIds(ops: seq<PatchOp>): set<Id> {
    set op, j | op in ops && Own(op).Some? && j in Own(op).value.addIds && j.JStr? :: j.s
  }

  function RemovedIds(ops: seq<PatchOp>): set<Id> {
    set op, j | op in ops && Own(op).Some? && j in Own(op).value.removeIds && j.JStr? :: j.s
  }

  /** No id that some operation adds has a remove as its last mention. */
  predicate AddsStand(ops: seq<PatchOp>) {
    forall x :: x in AddedIds(ops) ==> LastMention(ops, x) != Removed
  }

  // ---------------------------------------------------------------- batching against the in-order meaning

  lemma AppendAssociates(p: Patch, q: Patch, r: Patch)
    ensures Append(Append(p, q), r) == Append(p, Append(q, r))
    ensures Append(NO_PATCH, p) == p == Append(p, NO_PATCH)
  {
  }

  /** Compilation starting from a patch appends what the list compiles to, and fails for the same lists. */
  lemma {:induction false} CompileFromAppends(p: Patch, ops: seq<PatchOp>)
    ensures Compile(ops).Some? <==> CompileFrom(p, ops).Some?
    ensures Compile(ops).Some? ==> CompileFrom(p, ops).value == Append(p, Compile(ops).value)
    decreases |ops|
  {
    var own := if ops == [] then None else Own(ops[0]);
    if own.Some? {
      CompileFromAppends(Append(p, own.value), ops[1..]);
      CompileFromAppends(own.value, ops[1..]);
      AppendAssociates(own.value, NO_PATCH, NO_PATCH);
      if Compile(ops[1..]).Some? {
        AppendAssociates(p, own.value, Compile(ops[1..]).value);
      }
    } else {
      AppendAssociates(p, NO_PATCH, NO_PATCH);
    }
  }

  /** A list compiles exactly when each of its operations does. */
  lemma {:induction false} CompilesWhenAllDo(ops: seq<PatchOp>)
    ensures Compile(ops).Some? <==> forall op :: op in ops ==> Own(op).Some?
    decreases |ops|
  {
    if ops != [] {
      assert forall op :: op in ops <==> op == ops[0] || op in ops[1..];
      CompilesWhenAllDo(ops[1..]);
      if Own(ops[0]).Some? {
        CompileFromAppends(Append(NO_PATCH, Own(ops[0]).value), ops[1..]);
      }
    }
  }

  lemma CompileHead(ops: seq<PatchOp>)
    requires ops != [] && Compile(ops).Some?
    ensures Own(ops[0]).Some? && Compile(ops[1..]).Some?
    ensures Compile(ops).value == Append(Own(ops[0]).value, Compile(ops[1..]).value)
  {
    AppendAssociates(Own(ops[0]).value, NO_PATCH, NO_PATCH);
    CompileFromAppends(Own(ops[0]).value, ops[1..]);
  }

  /** The compiled lists hold exactly what the single operations contribute. */
  lemma {:induction false} CompileCollects(ops: seq<PatchOp>)
    requires Compile(ops).Some?
    ensures forall j :: j in Compile(ops).value.addIds <==>
              exists op :: op in ops && Own(op).Some? && j in Own(op).value.addIds
    ensures forall j :: j in Compile(ops).value.removeIds <==>
              exists op :: op in ops && Own(op).Some? && j in Own(op).value.removeIds
    decreases |ops|
  {
    if ops != [] {
      CompileHead(ops);
      CompileCollects(ops[1..]);
      assert forall op :: op in ops <==> op == ops[0] || op in ops[1..];
      assert ops[0] in ops;
    }
  }

  /** A list is executed exactly when each operation is acceptable, and then as two sets. */
  lemma BatchIs(m: set<Id>, ops: seq<PatchOp>)
    ensures Batch(m, ops) == if AllWellTyped(ops) then Some(m - RemovedIds(ops) + AddedIds(ops)) else None
  {
    CompilesWhenAllDo(ops);
    if Compile(ops).Some? {
      var p := Compile(ops).value;
      CompileCollects(ops);
      assert Typed(p) <==> AllWellTyped(ops) by {
        if Typed(p) {
          forall op | op in ops ensures WellTyped(op) {
            assert Own(op).Some?;
            assert forall j :: j in Own(op).value.addIds ==> j in p.addIds;
            assert forall j :: j in Own(op).value.removeIds ==> j in p.removeIds;
          }
        }
      }
      if Typed(p) {
        forall x ensures x in AddedIds(ops) <==> JStr(x) in p.addIds {
        }
        forall x ensures x in RemovedIds(ops) <==> JStr(x) in p.removeIds {
        }
        assert Elems(Ids(p.addIds)) == AddedIds(ops);
        assert Elems(Ids(p.removeIds)) == RemovedIds(ops);
      }
    }
  }

  lemma BatchOne(m: set<Id>, op: PatchOp)
    ensures Batch(m, [op]).Some? <==> WellTyped(op)
    ensures WellTyped(op) ==> forall x :: x in Batch(m, [op]).value <==>
              OpMention(op, x) == Added || (OpMention(op, x) == Never && x in m)
  {
    BatchIs(m, [op]);
    assert op in [op];
    if WellTyped(op) {
      forall x ensures x in AddedIds([op]) <==> JStr(x) in Own(op).value.addIds {}
      forall x ensures x in RemovedIds([op]) <==> JStr(x) in Own(op).value.removeIds {}
    }
  }

  /** In order, the last mention decides. */
  lemma {:induction false} InOrderIs(m: set<Id>, ops: seq<PatchOp>)
    ensures InOrder(m, ops).Some? <==> AllWellTyped(ops)
    ensures AllWellTyped(ops) ==> forall x :: x in InOrder(m, ops).value <==>
              LastMention(ops, x) == Added || (LastMention(ops, x) == Never && x in m)
    decreases |ops|
  {
    if ops != [] {
      BatchOne(m, ops[0]);
      assert forall op :: op in ops <==> op == ops[0] || op in ops[1..];
      if WellTyped(ops[0]) {
        InOrderIs(Batch(m, [ops[0]]).value, ops[1..]);
      }
    }
  }

  lemma {:induction false} LastMentionIs(ops: seq<PatchOp>, x: Id)
    ensures LastMention(ops, x) == Added ==> x in AddedIds(ops)
    ensures LastMention(ops, x) == Removed ==> x in RemovedIds(ops)
    ensures LastMention(ops, x) == Never ==> x !in AddedIds(ops)
    ensures LastMention(ops, x) == Never ==> x !in RemovedIds(ops)
    decreases |ops|
  {
    if ops != [] {
      LastMentionIs(ops[1..], x);
      assert forall op :: op in ops <==> op == ops[0] || op in ops[1..];
      assert ops[0] in ops;
      if LastMention(ops, x) == Added && LastMention(ops[1..], x) == Never {
        assert JStr(x) in Own(ops[0]).value.addIds && JStr(x).s == x;
      }
      if LastMention(ops, x) == Removed && LastMention(ops[1..], x) == Never {
        assert JStr(x) in Own(ops[0]).value.removeIds && JStr(x).s == x;
      }
    }
  }

  /** At one id, the two ways differ exactly when it is added somewhere and last removed. */
  lemma AgreeAt(m: set<Id>, ops: seq<PatchOp>, x: Id)
    requires AllWellTyped(ops)
    ensures Batch(m, ops).Some? && InOrder(m, ops).Some?
    ensures (x in Batch(m, ops).value <==> x in InOrder(m, ops).value)
            <==> !(x in AddedIds(ops) && LastMention(ops, x) == Removed)
  {
    BatchIs(m, ops);
    InOrderIs(m, ops);
    LastMentionIs(ops, x);
    assert x in Batch(m, ops).value <==> (x in AddedIds(ops) || (x in m && x !in RemovedIds(ops)));
  }

  /** For every list and every starting membership: executing the batch equals executing the
      operations in order exactly when no added id has a remove as its last mention. An ill-typed
      list is rejected both ways. */
  lemma BatchMeansInOrder(m: set<Id>, ops: seq<PatchOp>)
    ensures Batch(m, ops) == InOrder(m, ops) <==> (AllWellTyped(ops) ==> AddsStand(ops))
  {
    if !AllWellTyped(ops) {
      BatchIs(m, ops);
      InOrderIs(m, ops);
    } else if AddsStand(ops) {
      AgreeAt(m, ops, "");
      forall x ensures x in Batch(m, ops).value <==> x in InOrder(m, ops).value {
        AgreeAt(m, ops, x);
      }
      assert Batch(m, ops).value == InOrder(m, ops).value;
    } else {
      var x :| x in AddedIds(ops) && LastMention(ops, x) == Removed;
      AgreeAt(m, ops, x);
    }
  }

  // ---------------------------------------------------------------- retry, reorder, commute

  /** Sending a patch again changes nothing more. */
  lemma BatchTwice(m: set<Id>, ops: seq<PatchOp>)
    requires Batch(m, ops).Some?
    ensures Batch(Batch(m, ops).value, ops) == Batch(m, ops)
  {
    BatchIs(m, ops);
    var once := Batch(m, ops).value;
    BatchIs(once, ops);
    assert once - RemovedIds(ops) + AddedIds(ops) == once;
  }

  /** The order of the operations in the list does not matter to the membership. */
  lemma BatchPermuted(m: set<Id>, ops: seq<PatchOp>, ops': seq<PatchOp>)
    requires multiset(ops) == multiset(ops')
    ensures Batch(m, ops) == Batch(m, ops')
  {
    forall op ensures op in ops <==> op in ops' {
      assert op in ops <==> op in multiset(ops);
      assert op in ops' <==> op in multiset(ops');
    }
    BatchIs(m, ops);
    BatchIs(m, ops');
    assert AddedIds(ops) == AddedIds(ops');
    assert RemovedIds(ops) == RemovedIds(ops');
  }

  datatype Effect = Sets | Clears | Leaves

  /** What a compiled patch does to one id, whatever the membership. */
  function EffectOn(p: Patch, x: Id): Effect {
    if JStr(x) in p.addIds then Sets else if JStr(x) in p.removeIds then Clears else Leaves
  }

  ghost predicate Conflict(p: Patch, q: Patch) {
    exists x :: (EffectOn(p, x) == Sets && EffectOn(q, x) == Clears)
             || (EffectOn(p, x) == Clears && EffectOn(q, x) == Sets)
  }

  lemma ResultAt(m: set<Id>, p: Patch, x: Id)
    requires Typed(p)
    ensures x in Result(m, p) <==> EffectOn(p, x) == Sets || (EffectOn(p, x) == Leaves && x in m)
  {
  }

  /** From any membership, two patches give the same result in either order exactly when neither sets
      an id the other clears. */
  lemma PatchesCommute(m: set<Id>, p: Patch, q: Patch)
    requires Typed(p) && Typed(q)
    ensures Result(Result(m, p), q) == Result(Result(m, q), p) <==> !Conflict(p, q)
  {
    var pq := Result(Result(m, p), q);
    var qp := Result(Result(m, q), p);
    forall x
      ensures x in pq <==>
              EffectOn(q, x) == Sets
              || (EffectOn(q, x) == Leaves && (EffectOn(p, x) == Sets || (EffectOn(p, x) == Leaves && x in m)))
      ensures x in qp <==>
              EffectOn(p, x) == Sets
              || (EffectOn(p, x) == Leaves && (EffectOn(q, x) == Sets || (EffectOn(q, x) == Leaves && x in m)))
    {
      ResultAt(m, p, x);
      ResultAt(m, q, x);
      ResultAt(Result(m, p), q, x);
      ResultAt(Result(m, q), p, x);
    }
    if Conflict(p, q) {
      var x :| (EffectOn(p, x) == Sets && EffectOn(q, x) == Clears) || (EffectOn(p, x) == Clears && EffectOn(q, x) == Sets);
      assert x in pq <==> x !in qp;
    }
  }

  // ---------------------------------------------------------------- the forms an identity provider sends

  function Entry(id: Id): Json {
    JObj(map["value" := JStr(id)])
  }

  function Entries(ids: seq<Id>): seq<Json> {
    if ids == [] then [] else [Entry(ids[0])] + Entries(ids[1..])
  }

  function AddMembers(ids: seq<Id>): PatchOp {
    PatchOp("add", Some("members"), Some(JArr(Entries(ids))))
  }

  function RemoveMembers(ids: seq<Id>): PatchOp {
    PatchOp("remove", Some("members"), Some(JArr(Entries(ids))))
  }

  function RemoveMember(id: Id): PatchOp {
    PatchOp("remove", Some(MemberPath.Print(id)), None)
  }

  lemma {:induction false} EntriesName(ids: seq<Id>)
    requires "" !in ids
    ensures forall j :: j in ItemIds(Entries(ids)) <==> j.JStr? && j.s in ids
  {
    if ids != [] {
      assert Entries(ids)[1..] == Entries(ids[1..]);
      assert forall id :: id in ids <==> id == ids[0] || id in ids[1..];
      EntriesName(ids[1..]);
      assert EntryIds(Entry(ids[0])) == [JStr(ids[0])];
    }
  }

  lemma OwnOfForms(ids: seq<Id>)
    ensures Own(AddMembers(ids)) == Some(NO_PATCH.(addIds := ItemIds(Entries(ids))))
    ensures Own(RemoveMembers(ids)) == Some(NO_PATCH.(removeIds := ItemIds(Entries(ids))))
  {
    assert IsOp("add", "add") && IsOp("remove", "remove");
  }

  lemma FormsAreTyped(ids: seq<Id>)
    requires "" !in ids
    ensures WellTyped(AddMembers(ids)) && WellTyped(RemoveMembers(ids))
    ensures forall x :: OpMention(AddMembers(ids), x) == if x in ids then Added else Never
    ensures forall x :: OpMention(RemoveMembers(ids), x) == if x in ids then Removed else Never
  {
    OwnOfForms(ids);
    EntriesName(ids);
    forall x ensures x in ids <==> JStr(x) in ItemIds(Entries(ids)) {
      assert JStr(x).s == x;
    }
  }

  /** Removing one member by its path removes exactly it, whatever the other members are. */
  lemma RemoveByPath(m: set<Id>, id: Id)
    requires MemberPath.IsMemberId(id)
    ensures Batch(m, [RemoveMember(id)]) == Some(m - {id})
  {
    var op := RemoveMember(id);
    MemberPath.PrintExtract(id);
    assert IsOp("remove", "remove");
    assert |MemberPath.Print(id)| > |"members"|;
    assert Own(op) == Some(NO_PATCH.(removeIds := [JStr(id)]));
    BatchOne(m, op);
    assert Batch(m, [op]).value == m - {id};
  }

  /** From any membership to any other: removing who has left and adding who has joined, in either order,
      gives exactly the wanted members. */
  lemma SyncMembership(m: set<Id>, wanted: set<Id>, left: seq<Id>, joined: seq<Id>)
    requires Elems(left) == m - wanted && Elems(joined) == wanted - m && "" !in left && "" !in joined
    ensures Batch(m, [RemoveMembers(left), AddMembers(joined)]) == Some(wanted)
    ensures Batch(m, [AddMembers(joined), RemoveMembers(left)]) == Some(wanted)
  {
    var remove, add := RemoveMembers(left), AddMembers(joined);
    FormAlone(m, left);
    FormAlone(m - Elems(left), joined);
    InOrderPair(m, remove, add, m - Elems(left));
    RemoveThenAddStands(left, joined);
    BatchMeansInOrder(m, [remove, add]);
    assert m - (m - wanted) + (wanted - m) == wanted;
    BatchPermuted(m, [remove, add], [add, remove]);
  }

  lemma AddedSomewhere(ops: seq<PatchOp>, x: Id)
    requires x in AddedIds(ops)
    ensures exists op :: op in ops && OpMention(op, x) == Added
  {
    var op, j :| op in ops && Own(op).Some? && j in Own(op).value.addIds && j.JStr? && j.s == x;
    assert OpMention(op, x) == Added;
  }

  /** One operation of these forms adds, or removes, exactly the listed ids. */
  lemma FormAlone(m: set<Id>, ids: seq<Id>)
    requires "" !in ids
    ensures Batch(m, [AddMembers(ids)]) == Some(m + Elems(ids))
    ensures Batch(m, [RemoveMembers(ids)]) == Some(m - Elems(ids))
  {
    FormsAreTyped(ids);
    BatchOne(m, AddMembers(ids));
    BatchOne(m, RemoveMembers(ids));
    assert Batch(m, [AddMembers(ids)]).value == m + Elems(ids);
    assert Batch(m, [RemoveMembers(ids)]).value == m - Elems(ids);
  }

  lemma InOrderPair(m: set<Id>, a: PatchOp, b: PatchOp, next: set<Id>)
    requires Batch(m, [a]) == Some(next)
    ensures InOrder(m, [a, b]) == Batch(next, [b])
  {
    var ops := [a, b];
    assert [ops[0]] == [a] && ops[1..] == [b] && [b][1..] == [] && [[b][0]] == [b];
    assert InOrder(m, ops) == InOrder(next, [b]);
    if Batch(next, [b]).Some? {
      assert InOrder(next, [b]) == InOrder(Batch(next, [b]).value, []);
    }
  }

  /** Additions after removals stand. */
  lemma RemoveThenAddStands(left: seq<Id>, joined: seq<Id>)
    requires "" !in left && "" !in joined
    ensures AddsStand([RemoveMembers(left), AddMembers(joined)])
  {
    var ops := [RemoveMembers(left), AddMembers(joined)];
    FormsAreTyped(left);
    FormsAreTyped(joined);
    assert ops[1..] == [AddMembers(joined)] && [AddMembers(joined)][1..] == [];
    forall y | y in AddedIds(ops) ensures LastMention(ops, y) != Removed {
      AddedSomewhere(ops, y);
      assert OpMention(AddMembers(joined), y) == Added;
      assert LastMention(ops[1..], y) == OpMention(AddMembers(joined), y);
    }
  }

  /** The batch at fault, for every membership and id: an add that is taken back in the same request stays. */
  lemma AddThenRemoveKeeps(m: set<Id>, x: Id)
    requires x != ""
    ensures Batch(m, [AddMembers([x]), RemoveMembers([x])]) == Some(m + {x})
    ensures InOrder(m, [AddMembers([x]), RemoveMembers([x])]) == Some(m - {x})
  {
    var add, remove := AddMembers([x]), RemoveMembers([x]);
    assert Elems([x]) == {x};
    FormAlone(m, [x]);
    FormAlone(m + {x}, [x]);
    FormAlone(m - {x}, [x]);
    InOrderPair(m, add, remove, m + {x});
    InOrderPair(m, remove, add, m - {x});
    assert m + {x} - {x} == m - {x} && m - {x} + {x} == m + {x};
    RemoveThenAddStands([x], [x]);
    BatchMeansInOrder(m, [remove, add]);
    BatchPermuted(m, [add, remove], [remove, add]);
  }

  /** An empty path is no path. */
  lemma EmptyPathIsNone(op: PatchOp)
    ensures Own(op.(path := Some(""))) == Own(op.(path := None))
  {
  }

  lemma {:induction false} ItemIdsAre(items: seq<Json>, j: Json)
    ensures j in ItemIds(items) <==>
            exists i :: 0 <= i < |items| && Truthy(Property(items[i], "value")) && Property(items[i], "value").value == j
    decreases |items|
  {
    if items != [] {
      ItemIdsAre(items[1..], j);
      if i :| 0 <= i < |items[1..]| && Truthy(Property(items[1..][i], "value")) && Property(items[1..][i], "value").value == j {
        assert items[i + 1] == items[1..][i];
      }
      if i :| 0 < i < |items| && Truthy(Property(items[i], "value")) && Property(items[i], "value").value == j {
        assert items[1..][i - 1] == items[i];
      }
    }
  }
}

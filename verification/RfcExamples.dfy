/** The forms that provisioning uses, and those on which the source departs from section 3.5.2 of RFC 7644. */
module RfcExamples {
  import opened Prelude
  import opened Tables
  import opened Json
  import opened ScimPath
  import opened RfcPatch
  import opened RfcForms
  import opened RfcLists
  import MemberPath
  import GroupPatch

  // ---------------------------------------------------------------- the forms an identity provider sends

  function IdFilterText(id: Id): string {
    VALUE_FILTER + id + "\""
  }

  lemma FilterNames(id: Id)
    requires MemberPath.IsMemberId(id) && '\\' !in id
    ensures ValueFilter(IdFilterText(id)) == Some(id)
  {
    var f, n := IdFilterText(id), |VALUE_FILTER|;
    assert f[..n] == VALUE_FILTER && f[n..|f| - 1] == id;
    forall i | n <= i < |f| - 1 ensures f[i] != '"' && f[i] != '\\' {
      assert f[i] == id[i - n];
    }
  }

  lemma SuffixOf(path: string, rest: string)
    requires path == MEMBERS + rest
    ensures TargetOf(path) == SuffixTarget(rest)
  {
    assert path[0] == 'm' && path[0..] == path;
    assert SCHEMA_PREFIX[0] == 'u' && Lower('m') != Lower('u');
    assert PrefixLength(path, SCHEMA_PREFIX) == 0;
    assert path[..|MEMBERS|] == MEMBERS && path[|MEMBERS|..] == rest;
  }

  lemma TargetOfPrint(id: Id)
    ensures TargetOf(MemberPath.Print(id)) == Selected(IdFilterText(id))
  {
    var rest := "[" + IdFilterText(id) + "]" + "";
    assert MemberPath.Print(id) == MEMBERS + rest;
    SuffixOf(MemberPath.Print(id), rest);
    SelectedSuffix(rest, IdFilterText(id), "");
  }

  lemma TargetOfPrintPart(id: Id, sub: string)
    requires IsName(sub)
    ensures TargetOf(MemberPath.Print(id) + "." + sub) == SelectedPart(IdFilterText(id), sub)
  {
    var more := "." + sub;
    var rest := "[" + IdFilterText(id) + "]" + more;
    PrintIs(id);
    assert MemberPath.Print(id) + "." + sub == MEMBERS + rest;
    SuffixOf(MemberPath.Print(id) + "." + sub, rest);
    assert more[1..] == sub;
    forall c | c in more ensures c != ']' {
      if c != '.' { assert c in sub; }
    }
    SelectedSuffix(rest, IdFilterText(id), more);
  }

  lemma PrintIs(id: Id)
    ensures MemberPath.Print(id) == MEMBERS + "[" + IdFilterText(id) + "]"
  {
  }

  lemma {:induction false} EntryAt(ids: seq<Id>, i: nat)
    requires i < |ids|
    ensures |GroupPatch.Entries(ids)| == |ids| && GroupPatch.Entries(ids)[i] == GroupPatch.Entry(ids[i])
  {
    if |ids| > 1 {
      EntryAt(ids[1..], if i > 0 then i - 1 else 0);
    }
  }

  lemma ReadingOfEntry(id: Id)
    requires id != ""
    ensures ReadEntry(GroupPatch.Entry(id)) == Names(id)
  {
  }

  lemma ReadingOfEntries(ids: seq<Id>)
    requires "" !in ids
    ensures ReadItems(GroupPatch.Entries(ids)) == Some(Elems(ids))
  {
    var items := GroupPatch.Entries(ids);
    assert |items| == |ids| by { if ids != [] { EntryAt(ids, 0); } }
    forall i | 0 <= i < |items| ensures ReadEntry(items[i]) == Names(ids[i]) {
      EntryAt(ids, i);
      ReadingOfEntry(ids[i]);
    }
    var named := set i | 0 <= i < |items| && ReadEntry(items[i]).Names? :: ReadEntry(items[i]).id;
    forall x ensures x in named <==> x in Elems(ids) {
      if x in ids {
        var i :| 0 <= i < |ids| && ids[i] == x;
        assert ReadEntry(items[i]).Names? && ReadEntry(items[i]).id == x;
      }
    }
    assert named == Elems(ids);
  }

  lemma ListedFormsAreSupported(ids: seq<Id>)
    requires "" !in ids
    ensures Supported(GroupPatch.AddMembers(ids)) && Supported(GroupPatch.RemoveMembers(ids))
  {
    ReadAlikeEntries(ids);
    assert MEMBERS == "members";
    ExactTarget();
    assert IsOp("add", "add") && IsOp("remove", "remove");
    assert AddSupported(GroupPatch.AddMembers(ids));
    assert RemoveSupported(GroupPatch.RemoveMembers(ids));
  }

  lemma ReadAlikeEntries(ids: seq<Id>)
    requires "" !in ids
    ensures ReadAlike(Some(JArr(GroupPatch.Entries(ids))))
    ensures ReadMembers(Some(JArr(GroupPatch.Entries(ids)))) == Some(Elems(ids))
  {
    ReadingOfEntries(ids);
    ReadAlikeIs(Some(JArr(GroupPatch.Entries(ids))));
    GroupPatch.EntriesName(ids);
    forall x ensures x in StringIds(GroupPatch.ItemIds(GroupPatch.Entries(ids))) <==> x in ids {
      StringIdsAt(GroupPatch.ItemIds(GroupPatch.Entries(ids)), x);
      assert JStr(x).s == x;
    }
    assert StringIds(GroupPatch.ItemIds(GroupPatch.Entries(ids))) == Elems(ids);
  }

  lemma PathFormIsSupported(id: Id)
    requires MemberPath.IsMemberId(id) && '\\' !in id
    ensures Supported(GroupPatch.RemoveMember(id))
  {
    var op := GroupPatch.RemoveMember(id);
    TargetOfPrint(id);
    FilterNames(id);
    assert op.path.value == MemberPath.Print(id);
    IdPathIsSupported(op, IdFilterText(id));
  }

  lemma IdPathIsSupported(op: PatchOp, f: string)
    requires IsOp(op.op, "remove") && !NoPath(op) && TargetOf(op.path.value) == Selected(f) && ValueFilter(f).Some?
    ensures Supported(op)
  {
    assert RemoveSupported(op);
  }

  /** The forms that provisioning uses are supported: adding and removing listed members, and removing one
      member by its path. */
  lemma FormsAreSupported(ids: seq<Id>, id: Id)
    requires "" !in ids && MemberPath.IsMemberId(id) && '\\' !in id
    ensures Supported(GroupPatch.AddMembers(ids))
    ensures Supported(GroupPatch.RemoveMembers(ids))
    ensures Supported(GroupPatch.RemoveMember(id))
  {
    ListedFormsAreSupported(ids);
    PathFormIsSupported(id);
  }

  // ---------------------------------------------------------------- forms the source gets wrong

  /** An operation in which the source sees nothing. */
  lemma Ignored(m: set<Id>, op: PatchOp)
    requires GroupPatch.Own(op) == Some(GroupPatch.NO_PATCH)
    ensures GroupPatch.Batch(m, [op]) == Some(m)
  {
    SourceStep(m, op);
    assert StringIds([]) == {};
    assert m - {} + {} == m;
  }

  function SetMembers(ids: seq<Id>): PatchOp {
    PatchOp("replace", Some("members"), Some(JArr(GroupPatch.Entries(ids))))
  }

  /** Replacing all members does nothing. */
  lemma ReplaceMembersIgnored(m: set<Id>, ids: seq<Id>, sel: Selection)
    requires "" !in ids
    ensures GroupPatch.Batch(m, [SetMembers(ids)]) == Some(m)
    ensures RfcStep(sel, m, SetMembers(ids)) == Some(Elems(ids))
  {
    var op := SetMembers(ids);
    assert IsOp(op.op, "replace") && !NoPath(op) && |op.path.value| != |"displayName"|;
    Ignored(m, op);
    ExactTarget();
    ReadingOfEntries(ids);
    assert ReplaceMeaning(op) == Becomes(Elems(ids));
  }

  function RemoveAll(): PatchOp {
    PatchOp("remove", Some("members"), None)
  }

  /** So does removing all members. */
  lemma RemoveAllIgnored(m: set<Id>, sel: Selection)
    ensures GroupPatch.Batch(m, [RemoveAll()]) == Some(m)
    ensures RfcStep(sel, m, RemoveAll()) == Some({})
  {
    var op := RemoveAll();
    assert IsOp("remove", "remove");
    Ignored(m, op);
    ExactTarget();
  }

  function RemovePart(id: Id, sub: string): PatchOp {
    PatchOp("remove", Some(MemberPath.Print(id) + "." + sub), None)
  }

  lemma PartIsLeft(sel: Selection, m: set<Id>, op: PatchOp, f: string, sub: string)
    requires IsOp(op.op, "remove") && !NoPath(op) && TargetOf(op.path.value) == SelectedPart(f, sub)
    requires !SameName(sub, "value")
    ensures RfcStep(sel, m, op) == Some(m)
  {
    assert RemoveMeaning(op) == LeavesMembers;
  }

  lemma RemovePartIs(id: Id, sub: string)
    ensures IsOp(RemovePart(id, sub).op, "remove") && !NoPath(RemovePart(id, sub))
    ensures RemovePart(id, sub).path.value == MemberPath.Print(id) + "." + sub
    ensures RemovePart(id, sub).path != Some(MEMBERS)
  {
    assert |MemberPath.Print(id) + "." + sub| > |MEMBERS|;
  }

  /** Removing a sub-attribute of a member removes the member. */
  lemma SubAttributeRemovesMember(m: set<Id>, id: Id, sub: string, sel: Selection)
    requires MemberPath.IsMemberId(id) && IsName(sub) && !SameName(sub, "value")
    ensures GroupPatch.Batch(m, [RemovePart(id, sub)]) == Some(m - {id})
    ensures RfcStep(sel, m, RemovePart(id, sub)) == Some(m)
  {
    SubAttributeSource(m, id, sub);
    RemovePartIs(id, sub);
    TargetOfPrintPart(id, sub);
    PartIsLeft(sel, m, RemovePart(id, sub), IdFilterText(id), sub);
  }

  lemma SubAttributeSource(m: set<Id>, id: Id, sub: string)
    requires MemberPath.IsMemberId(id)
    ensures GroupPatch.Batch(m, [RemovePart(id, sub)]) == Some(m - {id})
  {
    var op := RemovePart(id, sub);
    RemovePartIs(id, sub);
    PrintedPrefix(id, "." + sub);
    assert op.path.value == MemberPath.Print(id) + ("." + sub);
    RemovalSource(op);
    SourceStep(m, op);
    assert m - {id} + {} == m - {id};
  }

  lemma PrintedPrefix(id: Id, more: string)
    requires MemberPath.IsMemberId(id)
    ensures MemberPath.Extract(MemberPath.Print(id) + more) == Some(id)
  {
    var path, n := MemberPath.Print(id) + more, |MemberPath.KEYWORD|;
    assert forall k :: 0 <= k < n ==> path[k] == MemberPath.KEYWORD[k] == Lower(MemberPath.KEYWORD[k]);
    assert path[n..n + |id|] == id;
    assert path[n + |id|..n + |id| + 2] == MemberPath.CLOSING;
    assert MemberPath.Leftmost(path, 0, id);
    MemberPath.ExtractIsLeftmost(path, id);
  }

  function ReplaceMember(id: Id, other: Id): PatchOp {
    PatchOp("replace", Some(MemberPath.Print(id)), Some(GroupPatch.Entry(other)))
  }

  /** Replacing one member by another does nothing, whether the member is there or not. */
  lemma SelectedReplaceIgnored(m: set<Id>, id: Id, other: Id, sel: Selection)
    requires MemberPath.IsMemberId(id) && '\\' !in id && other != ""
    ensures GroupPatch.Batch(m, [ReplaceMember(id, other)]) == Some(m)
    ensures RfcStep(sel, m, ReplaceMember(id, other)) == if id in m then Some(m - {id} + {other}) else None
  {
    var op := ReplaceMember(id, other);
    assert IsOp("replace", "replace") && |op.path.value| > |"displayName"|;
    Ignored(m, op);
    SelectedReplaceMeaning(id, other);
    FilterNames(id);
    assert id in m <==> id in m * {id};
  }

  lemma SelectedReplaceMeaning(id: Id, other: Id)
    requires other != ""
    ensures MeaningOf(ReplaceMember(id, other)) == ReplacesMatching(IdFilterText(id), {other})
  {
    var op := ReplaceMember(id, other);
    assert IsOp("replace", "replace") && |op.path.value| > 0;
    TargetOfPrint(id);
    ReadingOfOne(other);
    assert ReplaceMeaning(op) == ReplacesMatching(IdFilterText(id), {other});
  }

  lemma ReadingOfOne(id: Id)
    requires id != ""
    ensures ReadItems([GroupPatch.Entry(id)]) == Some({id})
  {
    ReadingOfEntries([id]);
    assert GroupPatch.Entries([id]) == [GroupPatch.Entry(id)];
    assert Elems([id]) == {id};
  }

  function CapitalAdd(ids: seq<Id>): PatchOp {
    PatchOp("add", Some("Members"), Some(JArr(GroupPatch.Entries(ids))))
  }

  /** An attribute name in other letters is ignored. */
  lemma OtherLettersIgnored(m: set<Id>, ids: seq<Id>, sel: Selection)
    requires "" !in ids
    ensures GroupPatch.Batch(m, [CapitalAdd(ids)]) == Some(m)
    ensures RfcStep(sel, m, CapitalAdd(ids)) == Some(m + Elems(ids))
  {
    var path := "Members";
    assert IsOp("add", "add");
    assert path[0] == 'M' && MEMBERS[0] == 'm';
    Ignored(m, CapitalAdd(ids));
    assert path[0..] == path && path[..|MEMBERS|] == path && path[|MEMBERS|..] == "";
    assert forall i :: 0 < i < |path| ==> path[i] == MEMBERS[i];
    ReadingOfEntries(ids);
  }

  function PathlessAdd(ids: seq<Id>): PatchOp {
    PatchOp("add", None, Some(JObj(map["members" := JArr(GroupPatch.Entries(ids))])))
  }

  /** The section's own add without a path is refused. */
  lemma PathlessAddRefused(m: set<Id>, ids: seq<Id>, sel: Selection)
    requires "" !in ids
    ensures GroupPatch.Batch(m, [PathlessAdd(ids)]) == None
    ensures RfcStep(sel, m, PathlessAdd(ids)) == Some(m + Elems(ids))
  {
    var op := PathlessAdd(ids);
    assert IsOp("add", "add");
    SourceStep(m, op);
    ReadingOfEntries(ids);
  }

  /** A wrong operation can be covered by another one: the list is right, its first operation alone is not. */
  lemma CoveredMistake(x: Id)
    requires x != ""
    ensures !Supported(CapitalAdd([x]))
    ensures ListMeansRfc([CapitalAdd([x]), GroupPatch.AddMembers([x])])
  {
    var bad, good := CapitalAdd([x]), GroupPatch.AddMembers([x]);
    assert Elems([x]) == {x};
    OtherLettersIgnored({}, [x], Nobody());
    assert GroupPatch.Batch({}, [bad]) != RfcStep(Nobody(), {}, bad);
    OpMeansRfc(bad);
    forall m: set<Id>, sel: Selection ensures GroupPatch.Batch(m, [bad, good]) == Rfc(sel, m, [bad, good]) {
      CoveredAt(sel, m, x);
    }
  }

  lemma CoveredAt(sel: Selection, m: set<Id>, x: Id)
    requires x != ""
    ensures var ops := [CapitalAdd([x]), GroupPatch.AddMembers([x])]; GroupPatch.Batch(m, ops) == Rfc(sel, m, ops)
  {
    var bad, good := CapitalAdd([x]), GroupPatch.AddMembers([x]);
    assert Elems([x]) == {x};
    assert m + {x} + {x} == m + {x};
    OtherLettersIgnored(m, [x], sel);
    GroupPatch.FormAlone(m, [x]);
    GroupPatch.FormAlone(m + {x}, [x]);
    GoodAdd(x);
    assert RfcStep(sel, m + {x}, good) == GroupPatch.Batch(m + {x}, [good]);
    RfcPair(sel, m, bad, good);
    GroupPatch.InOrderPair(m, bad, good, m);
    OnlyAdds(bad, good);
    GroupPatch.BatchMeansInOrder(m, [bad, good]);
  }

  lemma RfcPair(sel: Selection, m: set<Id>, a: PatchOp, b: PatchOp)
    requires RfcStep(sel, m, a).Some?
    ensures Rfc(sel, m, [a, b]) == RfcStep(sel, RfcStep(sel, m, a).value, b)
  {
    RfcConcat(sel, m, [a], b);
    RfcConcat(sel, m, [], a);
    assert [a] + [b] == [a, b] && [] + [a] == [a];
  }

  lemma GoodAdd(x: Id)
    requires x != ""
    ensures MeansRfc(GroupPatch.AddMembers([x]))
  {
    ListedFormsAreSupported([x]);
    OpMeansRfc(GroupPatch.AddMembers([x]));
  }

  lemma OnlyAdds(a: PatchOp, b: PatchOp)
    requires IsOp(a.op, "add") && IsOp(b.op, "add")
    ensures GroupPatch.AddsStand([a, b])
  {
    var ops := [a, b];
    assert ops[1..] == [b] && [b][1..] == [];
    forall x ensures GroupPatch.LastMention(ops, x) != GroupPatch.Removed {
      assert GroupPatch.OpMention(a, x) != GroupPatch.Removed && GroupPatch.OpMention(b, x) != GroupPatch.Removed;
      assert GroupPatch.LastMention([b], x) == GroupPatch.OpMention(b, x);
    }
  }
}

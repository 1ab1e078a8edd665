/** Which group patch operations do what section 3.5.2 of RFC 7644 says. */
module RfcForms {
  import opened Prelude
  import opened Tables
  import opened Json
  import opened ScimPath
  import opened RfcPatch
  import MemberPath
  import GroupPatch

  // ---------------------------------------------------------------- the forms the source supports

  function StringIds(js: seq<Json>): set<Id> {
    set j | j in js && j.JStr? :: j.s
  }

  /** The members the source reads from a value; None when it refuses it. */
  function SourceReads(v: Value): Option<set<Id>> {
    match GroupPatch.ListedIds(v)
    case None => None
    case Some(js) => if GroupPatch.AllStrings(js) then Some(StringIds(js)) else None
  }

  /** The entry's own `value`, spelled so, is a non-empty string. */
  predicate NamesExactly(item: Json, id: Id) {
    item.JObj? && "value" in item.fields && item.fields["value"] == JStr(id) && id != ""
  }

  /** The entry's own `value` is something else that the source takes. */
  predicate IllNamed(item: Json) {
    Truthy(Property(item, "value")) && !Property(item, "value").value.JStr?
  }

  /** The section names nobody in the entry, or somebody whom some entry names in so many letters. */
  ghost predicate EntryAlike(items: seq<Json>, i: nat)
    requires i < |items|
  {
    match ReadEntry(items[i])
    case BadEntry => false
    case NamesNobody => true
    case Names(id) => exists j :: 0 <= j < |items| && NamesExactly(items[j], id)
  }

  /** The values from which the source and the section read the same members, or which both refuse. */
  ghost predicate ReadAlike(v: Value) {
    match v
    case Some(JArr(items)) =>
      (exists i :: 0 <= i < |items| && IllNamed(items[i])) || (forall i :: 0 <= i < |items| ==> EntryAlike(items, i))
    case Some(JObj(_)) => ReadEntry(v.value).BadEntry?
    case Some(JBool(_)) => true
    case Some(JNum(_, _)) => true
    case _ => false
  }

  ghost predicate PatternNowhere(path: string) {
    forall i: nat, id :: !MemberPath.Occurs(path, i, id)
  }

  /** `exact` tells a path that is `members` to the letter. */
  predicate AddSupportedAt(t: Target, exact: bool, alike: bool, read: Option<set<Id>>) {
    match t
    case Whole => if exact then alike else read == Some({})
    case Part(sub) => !SameName(sub, "value")
    case SelectedPart(_, sub) => !SameName(sub, "value")
    case Selected(_) => true
    case Elsewhere => true
  }

  ghost predicate AddSupported(op: PatchOp) {
    if NoPath(op) then
      match op.value
      case Some(JArr(_)) => ReadAlike(op.value)
      case Some(JObj(_)) => AddMeaning(op).Refused?
      case Some(JBool(_)) => true
      case Some(JNum(_, _)) => true
      case _ => false
    else AddSupportedAt(TargetOf(op.path.value), op.path.value == MEMBERS, ReadAlike(op.value), ReadMembers(op.value))
  }

  /** `plain` tells a path in which the source's pattern occurs nowhere. */
  predicate RemoveSupportedAt(t: Target, exact: bool, plain: bool, all: bool, alike: bool, read: Option<set<Id>>) {
    match t
    case Whole => !all && if exact then alike else read == Some({})
    case Part(sub) => !SameName(sub, "value")
    case Selected(f) => ValueFilter(f).Some?
    case SelectedPart(_, sub) => !SameName(sub, "value") && plain
    case Elsewhere => plain
  }

  ghost predicate RemoveSupported(op: PatchOp) {
    !NoPath(op)
    && RemoveSupportedAt(TargetOf(op.path.value), op.path.value == MEMBERS, PatternNowhere(op.path.value),
                         Nullish(op.value), ReadAlike(op.value), ReadMembers(op.value))
  }

  predicate ReplaceSupportedAt(t: Target) {
    match t
    case Part(sub) => !SameName(sub, "value")
    case Elsewhere => true
    case _ => false
  }

  ghost predicate ReplaceSupported(op: PatchOp) {
    if NoPath(op) then
      match op.value
      case Some(JObj(_)) => ReplaceMeaning(op).NotOnMembers? || (ReplaceMeaning(op).Refused? && GroupPatch.Own(op).None?)
      case _ => false
    else ReplaceSupportedAt(TargetOf(op.path.value))
  }

  /** The forms on which the source follows the section. Not among them: a replacement of members, whole or
      selected; a removal of all members; a removal of a sub-attribute of a selected member; a filter other
      than `value eq "id"`; the attribute name in other letters, when members are listed; the section's own
      path-less add; and values the two read differently. */
  ghost predicate Supported(op: PatchOp) {
    if IsOp(op.op, "add") then AddSupported(op)
    else if IsOp(op.op, "remove") then RemoveSupported(op)
    else if IsOp(op.op, "replace") then ReplaceSupported(op)
    else false
  }

  // ---------------------------------------------------------------- what the source does with one operation

  function SourceAdds(op: PatchOp): set<Id> {
    if GroupPatch.Own(op).Some? then StringIds(GroupPatch.Own(op).value.addIds) else {}
  }

  function SourceRemoves(op: PatchOp): set<Id> {
    if GroupPatch.Own(op).Some? then StringIds(GroupPatch.Own(op).value.removeIds) else {}
  }

  lemma StringIdsAt(js: seq<Json>, x: Id)
    ensures x in StringIds(js) <==> JStr(x) in js
  {
    assert JStr(x).s == x;
  }

  lemma SourceStep(m: set<Id>, op: PatchOp)
    ensures GroupPatch.Batch(m, [op]) ==
            if GroupPatch.WellTyped(op) then Some(m - SourceRemoves(op) + SourceAdds(op)) else None
    ensures SourceAdds(op) == {} || SourceRemoves(op) == {}
  {
    GroupPatch.BatchOne(m, op);
    if GroupPatch.WellTyped(op) {
      forall x ensures x in GroupPatch.Batch(m, [op]).value <==> x in m - SourceRemoves(op) + SourceAdds(op) {
        StringIdsAt(GroupPatch.Own(op).value.addIds, x);
        StringIdsAt(GroupPatch.Own(op).value.removeIds, x);
      }
      assert GroupPatch.Batch(m, [op]).value == m - SourceRemoves(op) + SourceAdds(op);
    }
  }

  /** The source's change of the members is the meaning, or both refuse. */
  predicate SameChange(meaning: Meaning, throws: bool, accepted: bool, adds: set<Id>, removes: set<Id>) {
    match meaning
    case Adds(ids) => accepted && adds == ids && removes == {}
    case Removes(ids) => accepted && adds == {} && removes == ids
    case RemovesMatching(f) => accepted && adds == {} && ValueFilter(f).Some? && removes == {ValueFilter(f).value}
    case Becomes(_) => false
    case ReplacesMatching(_, _) => false
    case NeedsMatch(_) => false
    case LeavesMembers => accepted && adds == {} && removes == {}
    case Refused => !accepted
    case NotOnMembers => throws || (accepted && adds == {} && removes == {})
  }

  /** Both sides treat the operation as the same change of the members, or refuse it. */
  ghost predicate SameReading(op: PatchOp) {
    SameChange(MeaningOf(op), GroupPatch.Own(op).None?, GroupPatch.WellTyped(op), SourceAdds(op), SourceRemoves(op))
  }

  lemma SameReadingAt(m: set<Id>, sel: Selection, op: PatchOp)
    requires SameReading(op)
    ensures RfcStep(sel, m, op) ==
            if GroupPatch.WellTyped(op) then Some(m - SourceRemoves(op) + SourceAdds(op)) else None
  {
    var adds, removes := SourceAdds(op), SourceRemoves(op);
    assert m - {} + adds == m + adds && m - removes + {} == m - removes && m - {} + {} == m;
  }

  lemma SameReadingMeansRfc(op: PatchOp)
    requires SameReading(op)
    ensures MeansRfc(op)
  {
    forall m: set<Id>, sel: Selection ensures GroupPatch.Batch(m, [op]) == RfcStep(sel, m, op) {
      SourceStep(m, op);
      SameReadingAt(m, sel, op);
    }
  }

  /** A group and a choice of selections on which the two sides differ. */
  ghost predicate Differ(op: PatchOp, m: set<Id>, sel: Selection) {
    GroupPatch.Batch(m, [op]) != RfcStep(sel, m, op)
  }

  /** When the source refuses the operation and the section does not. */
  lemma RefusedDiffers(op: PatchOp) returns (m: set<Id>, sel: Selection)
    requires !SameReading(op) && !GroupPatch.WellTyped(op)
    ensures Differ(op, m, sel)
  {
    sel := _ => {""};
    var meaning := MeaningOf(op);
    m := if meaning.ReplacesMatching? || meaning.NeedsMatch? then Selects(sel, meaning.filter) else {};
    SourceStep(m, op);
    if meaning.ReplacesMatching? || meaning.NeedsMatch? {
      assert m * Selects(sel, meaning.filter) == m;
      assert m != {};
    }
  }

  /** When the source accepts it: the empty group, the group of everyone removed, or one stranger tells. */
  lemma AcceptedDiffers(op: PatchOp) returns (m: set<Id>, sel: Selection)
    requires !SameReading(op) && GroupPatch.WellTyped(op)
    ensures Differ(op, m, sel)
  {
    var adds, removes := SourceAdds(op), SourceRemoves(op);
    SourceStep({}, op);
    sel := _ => {};
    m := {};
    match MeaningOf(op) {
      case Adds(ids) =>
        if adds == ids { m := removes; SourceStep(m, op); }
      case Removes(ids) =>
        if adds == {} { m := removes + ids; SourceStep(m, op); RemovalsDiffer(removes, ids); }
      case RemovesMatching(f) =>
        if adds == {} { m, sel := SelectionDiffers(op, f); }
      case Becomes(ids) =>
        var x := FreshString(ids + removes);
        m := {x};
        SourceStep(m, op);
        assert x in GroupPatch.Batch(m, [op]).value;
      case ReplacesMatching(_, _) =>
      case NeedsMatch(_) =>
      case LeavesMembers =>
        if adds == {} { m := removes; SourceStep(m, op); }
      case Refused =>
      case NotOnMembers =>
        if adds == {} { m := removes; SourceStep(m, op); }
    }
  }

  lemma SelectionDiffers(op: PatchOp, f: string) returns (m: set<Id>, sel: Selection)
    requires !SameReading(op) && GroupPatch.WellTyped(op) && MeaningOf(op) == RemovesMatching(f) && SourceAdds(op) == {}
    ensures Differ(op, m, sel)
  {
    var removes := SourceRemoves(op);
    if ValueFilter(f).Some? {
      m, sel := removes + {ValueFilter(f).value}, _ => {};
      SourceStep(m, op);
      RemovalsDiffer(removes, {ValueFilter(f).value});
    } else {
      var x := FreshString(removes);
      m, sel := {x}, _ => {x};
      SourceStep(m, op);
      assert x in GroupPatch.Batch(m, [op]).value;
    }
  }

  lemma RemovalsDiffer(a: set<Id>, b: set<Id>)
    requires a != b
    ensures (a + b) - a != (a + b) - b
  {
    assert exists x :: x in a + b && (x in a) != (x in b);
  }

  lemma DifferentReadingShows(op: PatchOp)
    requires !SameReading(op)
    ensures !MeansRfc(op)
  {
    if GroupPatch.WellTyped(op) {
      var m, sel := AcceptedDiffers(op);
    } else {
      var m, sel := RefusedDiffers(op);
    }
  }

  /** Doing what the section says for every group and every selection is the same as the same reading. */
  lemma MeansRfcIsSameReading(op: PatchOp)
    ensures MeansRfc(op) <==> SameReading(op)
  {
    if SameReading(op) {
      SameReadingMeansRfc(op);
    } else {
      DifferentReadingShows(op);
    }
  }

  // ---------------------------------------------------------------- which forms read the same

  lemma SameNamePlain(a: string, b: string)
    requires SameName(a, b) && '[' !in b
    ensures '[' !in a
  {
    forall i | 0 <= i < |a| ensures a[i] != '[' {
      assert b[i] in b;
    }
  }

  /** Before its bracket a path has no bracket, so the pattern can occur at one place only. */
  lemma TargetShape(path: string)
    requires !TargetOf(path).Elsewhere?
    ensures PrefixLength(path, SCHEMA_PREFIX) + |MEMBERS| <= |path|
    ensures forall i :: 0 <= i < PrefixLength(path, SCHEMA_PREFIX) + |MEMBERS| ==> path[i] != '['
  {
    var n := PrefixLength(path, SCHEMA_PREFIX);
    var name := path[n..][..|MEMBERS|];
    assert '[' !in SCHEMA_PREFIX && '[' !in MEMBERS;
    SameNamePlain(name, MEMBERS);
    if n > 0 { SameNamePlain(path[..n], SCHEMA_PREFIX); }
    forall i | 0 <= i < n + |MEMBERS| ensures path[i] != '[' {
      if i < n {
        assert path[i] in path[..n];
      } else {
        assert name[i - n] == path[i] && path[i] in name;
      }
    }
  }

  lemma OccursHasBracket(path: string, i: nat, id: string)
    requires MemberPath.Occurs(path, i, id)
    ensures path[i + |MEMBERS|] == '['
  {
    assert MemberPath.KEYWORD[|MEMBERS|] == '[';
    assert Lower(path[i + |MEMBERS|]) == '[';
  }

  /** A path without a bracket names nobody. */
  lemma NoBracketNoPattern(path: string)
    requires '[' !in path
    ensures MemberPath.Extract(path).None?
  {
    forall i: nat, id ensures !MemberPath.Occurs(path, i, id) {
      if MemberPath.Occurs(path, i, id) {
        OccursHasBracket(path, i, id);
      }
    }
    MemberPath.ExtractFailsWhenAbsent(path);
  }

  /** The whole attribute and its sub-attributes are written without brackets. */
  lemma PlainPath(path: string)
    requires TargetOf(path).Whole? || TargetOf(path).Part?
    ensures MemberPath.Extract(path).None?
  {
    var n := PrefixLength(path, SCHEMA_PREFIX) + |MEMBERS|;
    TargetShape(path);
    var rest := path[PrefixLength(path, SCHEMA_PREFIX)..][|MEMBERS|..];
    assert rest == path[n..];
    forall i | n <= i < |path| ensures path[i] != '[' {
      assert rest[i - n] == path[i];
      if i > n { assert rest[1..][i - n - 1] == path[i]; }
    }
    NoBracketNoPattern(path);
  }

  /** A value filter on an id is the pattern, and its first occurrence. */
  lemma SelectedPath(path: string)
    requires TargetOf(path).Selected? && ValueFilter(TargetOf(path).filter).Some?
    ensures MemberPath.Extract(path) == ValueFilter(TargetOf(path).filter)
  {
    var f := TargetOf(path).filter;
    var id := ValueFilter(f).value;
    var p := PrefixLength(path, SCHEMA_PREFIX);
    TargetShape(path);
    SelectedRest(path);
    SelectedOccurs(path, p, f, id);
    forall j: nat, other | j < p ensures !MemberPath.Occurs(path, j, other) {
      if MemberPath.Occurs(path, j, other) { OccursHasBracket(path, j, other); }
    }
    assert MemberPath.Leftmost(path, p, id);
    MemberPath.ExtractIsLeftmost(path, id);
  }

  lemma SelectedRest(path: string)
    requires TargetOf(path).Selected?
    ensures var n := PrefixLength(path, SCHEMA_PREFIX) + |MEMBERS|;
            n <= |path| && path[n..] == "[" + TargetOf(path).filter + "]"
  {
    var rest := path[PrefixLength(path, SCHEMA_PREFIX)..][|MEMBERS|..];
    assert rest == path[PrefixLength(path, SCHEMA_PREFIX) + |MEMBERS|..];
    assert rest[0] == '[' && rest[|rest| - 1] == ']' && TargetOf(path).filter == rest[1..|rest| - 1];
  }

  lemma SelectedOccurs(path: string, p: nat, f: string, id: Id)
    requires p + |MEMBERS| <= |path| && SameName(path[p..][..|MEMBERS|], MEMBERS)
    requires path[p + |MEMBERS|..] == "[" + f + "]"
    requires ValueFilter(f) == Some(id)
    ensures MemberPath.Occurs(path, p, id)
  {
    var a, n := p + |MEMBERS| + 1, |VALUE_FILTER|;
    assert |path| == a + |f| + 1;
    assert path[a..a + |f|] == f;
    assert MemberPath.KEYWORD == MEMBERS + "[" + VALUE_FILTER;
    forall k | 0 <= k < |MemberPath.KEYWORD| ensures Lower(path[p + k]) == MemberPath.KEYWORD[k] {
      if k < |MEMBERS| {
        assert path[p..][..|MEMBERS|][k] == path[p + k];
      } else if k > |MEMBERS| {
        assert path[p + k] == f[p + k - a] == f[..n][p + k - a];
      } else {
        assert path[p + k] == path[p + |MEMBERS|..][0];
      }
    }
    assert id == f[n..|f| - 1] == path[a + n..a + |f| - 1];
    assert path[a + |f| - 1] == f[|f| - 1] == '"';
    assert path[a + |f|] == path[p + |MEMBERS|..][1 + |f|] == ']';
    forall c | c in id ensures c != '"' {
      var i :| 0 <= i < |id| && id[i] == c;
      assert f[n + i] == c;
    }
  }

  lemma ExactTarget()
    ensures TargetOf(MEMBERS) == Whole
  {
    assert MEMBERS[0..] == MEMBERS && MEMBERS[..|MEMBERS|] == MEMBERS && MEMBERS[|MEMBERS|..] == "";
  }

  /** What the source reads from a list. */
  lemma SourceReadsList(items: seq<Json>)
    ensures SourceReads(Some(JArr(items))).None? <==> exists i :: 0 <= i < |items| && IllNamed(items[i])
    ensures SourceReads(Some(JArr(items))).Some? ==>
              forall x :: x in SourceReads(Some(JArr(items))).value <==>
                exists i :: 0 <= i < |items| && NamesExactly(items[i], x)
  {
    var js := GroupPatch.ItemIds(items);
    if i :| 0 <= i < |items| && IllNamed(items[i]) {
      GroupPatch.ItemIdsAre(items, Property(items[i], "value").value);
    }
    if j :| j in js && !j.JStr? {
      GroupPatch.ItemIdsAre(items, j);
    }
    forall x ensures x in StringIds(js) <==> exists i :: 0 <= i < |items| && NamesExactly(items[i], x) {
      StringIdsAt(js, x);
      GroupPatch.ItemIdsAre(items, JStr(x));
      if i :| 0 <= i < |items| && NamesExactly(items[i], x) {
        assert Truthy(Property(items[i], "value")) && Property(items[i], "value").value == JStr(x);
      }
      if i :| 0 <= i < |items| && Truthy(Property(items[i], "value")) && Property(items[i], "value").value == JStr(x) {
        assert NamesExactly(items[i], x);
      }
    }
  }

  lemma ReadingOfItem(item: Json)
    ensures IllNamed(item) ==> ReadEntry(item).BadEntry?
    ensures forall x :: NamesExactly(item, x) ==> ReadEntry(item) == Names(x)
  {
  }

  lemma ListReadAlikeIs(items: seq<Json>)
    ensures ReadAlike(Some(JArr(items))) <==> ReadItems(items) == SourceReads(Some(JArr(items)))
  {
    SourceReadsList(items);
    var source := SourceReads(Some(JArr(items)));
    forall i | 0 <= i < |items|
      ensures IllNamed(items[i]) ==> ReadEntry(items[i]).BadEntry?
      ensures forall x :: NamesExactly(items[i], x) ==> ReadEntry(items[i]) == Names(x)
    {
      ReadingOfItem(items[i]);
    }
    if source.Some? && ReadItems(items).Some? {
      var read := ReadItems(items).value;
      assert source.value <= read;
      if forall i :: 0 <= i < |items| ==> EntryAlike(items, i) {
        forall x | x in read ensures x in source.value {
          var i :| 0 <= i < |items| && ReadEntry(items[i]) == Names(x);
          assert EntryAlike(items, i);
        }
        assert read == source.value;
      } else {
        var i :| 0 <= i < |items| && !EntryAlike(items, i);
        assert ReadEntry(items[i]).id in read && ReadEntry(items[i]).id !in source.value;
      }
    } else if source.Some? {
      var i :| 0 <= i < |items| && ReadEntry(items[i]).BadEntry?;
      assert !EntryAlike(items, i);
    }
  }

  /** The two read alike exactly the values said above. */
  lemma ReadAlikeIs(v: Value)
    ensures ReadAlike(v) <==> ReadMembers(v) == SourceReads(v)
  {
    if v.Some? && v.value.JArr? {
      ListReadAlikeIs(v.value.items);
    } else if v.Some? && v.value.JObj? {
      assert [v.value][0] == v.value;
    }
  }

  lemma SupportedPathlessAdds(op: PatchOp)
    requires IsOp(op.op, "add") && NoPath(op)
    ensures AddSupported(op) <==> SameReading(op)
  {
    assert StringIds([]) == {};
    assert MeaningOf(op) == AddMeaning(op);
    ReadAlikeIs(op.value);
  }

  lemma AddAtAgrees(t: Target, exact: bool, read: Option<set<Id>>, source: Option<set<Id>>)
    requires exact ==> t.Whole?
    ensures var adds := if exact && source.Some? then source.value else {};
            AddSupportedAt(t, exact, read == source, read)
            <==> SameChange(AddAt(t, read), exact && source.None?, exact ==> source.Some?, adds, {})
  {
  }

  /** What the source makes of an addition with a path. */
  lemma AdditionSource(op: PatchOp)
    requires IsOp(op.op, "add") && !NoPath(op)
    ensures SourceRemoves(op) == {}
    ensures op.path == Some(MEMBERS) ==>
              (if GroupPatch.WellTyped(op) then Some(SourceAdds(op)) else None) == SourceReads(op.value)
    ensures op.path == Some(MEMBERS) && !GroupPatch.WellTyped(op) ==> SourceReads(op.value) == None
    ensures op.path != Some(MEMBERS) ==> GroupPatch.Own(op).Some? && GroupPatch.WellTyped(op) && SourceAdds(op) == {}
  {
    assert StringIds([]) == {};
  }

  lemma SupportedPathAdds(op: PatchOp)
    requires IsOp(op.op, "add") && !NoPath(op)
    ensures AddSupported(op) <==> SameReading(op)
  {
    var path := op.path.value;
    ExactTarget();
    AdditionSource(op);
    ReadAlikeIs(op.value);
    AddAtAgrees(TargetOf(path), path == MEMBERS, ReadMembers(op.value), SourceReads(op.value));
    assert MeaningOf(op) == AddAt(TargetOf(path), ReadMembers(op.value));
  }

  /** What the source makes of a removal. */
  lemma RemovalSource(op: PatchOp)
    requires IsOp(op.op, "remove")
    ensures SourceAdds(op) == {}
    ensures op.path == Some(MEMBERS) ==>
              (if GroupPatch.WellTyped(op) then Some(SourceRemoves(op)) else None) == SourceReads(op.value)
    ensures op.path != Some(MEMBERS) ==>
              GroupPatch.WellTyped(op)
              && SourceRemoves(op) == (if NoPath(op) then {} else NamedBy(op.path.value))
  {
    assert StringIds([]) == {};
    if !NoPath(op) && MemberPath.Extract(op.path.value).Some? {
      var id := MemberPath.Extract(op.path.value).value;
      assert StringIds([JStr(id)]) == {id} by { assert JStr(id) in [JStr(id)] && JStr(id).s == id; }
    }
  }

  function NamedBy(path: string): set<Id> {
    match MemberPath.Extract(path)
    case None => {}
    case Some(id) => {id}
  }

  lemma NamedByTarget(path: string)
    ensures TargetOf(path).Whole? || TargetOf(path).Part? ==> NamedBy(path) == {}
    ensures TargetOf(path).Selected? && ValueFilter(TargetOf(path).filter).Some? ==>
              NamedBy(path) == {ValueFilter(TargetOf(path).filter).value}
    ensures NamedBy(path) == {} <==> PatternNowhere(path)
  {
    MemberPath.ExtractFailsWhenAbsent(path);
    if TargetOf(path).Whole? || TargetOf(path).Part? {
      PlainPath(path);
    } else if TargetOf(path).Selected? && ValueFilter(TargetOf(path).filter).Some? {
      SelectedPath(path);
    }
  }

  lemma RemoveAtAgrees(t: Target, exact: bool, all: bool, read: Option<set<Id>>, source: Option<set<Id>>, named: set<Id>,
                       throws: bool)
    requires exact ==> t.Whole?
    requires t.Whole? || t.Part? ==> named == {}
    requires t.Selected? && ValueFilter(t.filter).Some? ==> named == {ValueFilter(t.filter).value}
    ensures var removes := if !exact then named else if source.Some? then source.value else {};
            RemoveSupportedAt(t, exact, named == {}, all, read == source, read)
            <==> SameChange(RemoveAt(t, all, read), throws && exact, exact ==> source.Some?, {}, removes)
  {
  }

  lemma SupportedPathRemoves(op: PatchOp)
    requires IsOp(op.op, "remove") && !NoPath(op)
    ensures RemoveSupported(op) <==> SameReading(op)
  {
    var path, exact, throws := op.path.value, op.path.value == MEMBERS, GroupPatch.Own(op).None?;
    ExactTarget();
    RemovalSource(op);
    NamedByTarget(path);
    ReadAlikeIs(op.value);
    RemoveAtAgrees(TargetOf(path), exact, Nullish(op.value), ReadMembers(op.value), SourceReads(op.value),
                   NamedBy(path), throws);
    assert (throws && exact) == throws;
    assert MeaningOf(op) == RemoveAt(TargetOf(path), Nullish(op.value), ReadMembers(op.value));
  }

  lemma SupportedRemoves(op: PatchOp)
    requires IsOp(op.op, "remove")
    ensures RemoveSupported(op) <==> SameReading(op)
  {
    if NoPath(op) { RemovalSource(op); } else { SupportedPathRemoves(op); }
  }

  /** What the source makes of a replacement: nothing that concerns members. */
  lemma ReplacementSource(op: PatchOp)
    requires IsOp(op.op, "replace")
    ensures SourceAdds(op) == {} && SourceRemoves(op) == {}
    ensures GroupPatch.WellTyped(op) <==> GroupPatch.Own(op).Some?
    ensures !NoPath(op) && GroupPatch.Own(op).None? ==> op.path == Some("displayName")
    ensures NoPath(op) && GroupPatch.Own(op).None? ==> op.value.Some? && !op.value.value.JStr?
    ensures NoPath(op) && GroupPatch.Own(op).None? ==> op.value.value.JObj?
  {
    assert StringIds([]) == {};
  }

  lemma DisplayNameIsElsewhere()
    ensures TargetOf("displayName") == Elsewhere
  {
    var path := "displayName";
    assert Lower(path[0]) != Lower(MEMBERS[0]);
    assert PrefixLength(path, SCHEMA_PREFIX) == 0 && path[0..] == path;
    assert path[..|MEMBERS|][0] == path[0];
  }

  lemma ReplaceAtAgrees(t: Target, whole: Meaning, read: Option<set<Id>>, throws: bool)
    requires throws ==> t.Elsewhere?
    requires whole.Becomes? || whole.Refused?
    ensures ReplaceSupportedAt(t) <==> SameChange(ReplaceAt(t, whole, read), throws, !throws, {}, {})
  {
  }

  lemma SupportedReplaces(op: PatchOp)
    requires IsOp(op.op, "replace")
    ensures ReplaceSupported(op) <==> SameReading(op)
  {
    ReplacementSource(op);
    DisplayNameIsElsewhere();
    assert MeaningOf(op) == ReplaceMeaning(op);
    if !NoPath(op) {
      ReplaceAtAgrees(TargetOf(op.path.value), Replaced(op.value), ReadMembers(op.value), GroupPatch.Own(op).None?);
    }
  }

  /** For every operation: the source does what the section says, whatever the group and the filters, if
      and only if the operation has one of the supported forms. */
  lemma OpMeansRfc(op: PatchOp)
    ensures MeansRfc(op) <==> Supported(op)
  {
    MeansRfcIsSameReading(op);
    if IsOp(op.op, "add") {
      if NoPath(op) { SupportedPathlessAdds(op); } else { SupportedPathAdds(op); }
    } else if IsOp(op.op, "remove") {
      SupportedRemoves(op);
    } else if IsOp(op.op, "replace") {
      SupportedReplaces(op);
    }
  }
}

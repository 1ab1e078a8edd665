/** Which lists of group patch operations do what section 3.5.2 of RFC 7644 says. */
module RfcLists {
  import opened Prelude
  import opened Tables
  import opened Json
  import opened ScimPath
  import opened RfcPatch
  import opened RfcForms
  import MemberPath
  import GroupPatch

  // ---------------------------------------------------------------- lists of supported operations

  ghost predicate AllSupported(ops: seq<PatchOp>) {
    forall op :: op in ops ==> Supported(op)
  }

  lemma {:induction false} SupportedInOrder(sel: Selection, m: set<Id>, ops: seq<PatchOp>)
    requires AllSupported(ops)
    ensures GroupPatch.InOrder(m, ops) == Rfc(sel, m, ops)
    decreases |ops|
  {
    if ops != [] {
      assert ops[0] in ops;
      OpMeansRfc(ops[0]);
      assert GroupPatch.Batch(m, [ops[0]]) == RfcStep(sel, m, ops[0]);
      if RfcStep(sel, m, ops[0]).Some? {
        SupportedInOrder(sel, RfcStep(sel, m, ops[0]).value, ops[1..]);
      }
    }
  }

  /** For lists of supported operations and every group: the batch does what the section says if and only
      if no added id has a remove as its last mention. */
  lemma SupportedListMeansRfc(sel: Selection, m: set<Id>, ops: seq<PatchOp>)
    requires AllSupported(ops)
    ensures GroupPatch.Batch(m, ops) == Rfc(sel, m, ops)
            <==> (GroupPatch.AllWellTyped(ops) ==> GroupPatch.AddsStand(ops))
  {
    SupportedInOrder(sel, m, ops);
    GroupPatch.BatchMeansInOrder(m, ops);
  }

  // ---------------------------------------------------------------- lists of any operations

  /** The source does what the section says for this list, whatever the group and the filters. */
  ghost predicate ListMeansRfc(ops: seq<PatchOp>) {
    forall m: set<Id>, sel: Selection :: GroupPatch.Batch(m, ops) == Rfc(sel, m, ops)
  }

  /** What an operation does to one id, unless it is refused. */
  ghost function OpEffect(op: PatchOp, x: Id): GroupPatch.Effect {
    match MeaningOf(op)
    case Adds(ids) => if x in ids then GroupPatch.Sets else GroupPatch.Leaves
    case Removes(ids) => if x in ids then GroupPatch.Clears else GroupPatch.Leaves
    case RemovesMatching(f) => if ValueFilter(f) == Some(x) then GroupPatch.Clears else GroupPatch.Leaves
    case Becomes(ids) => if x in ids then GroupPatch.Sets else GroupPatch.Clears
    case ReplacesMatching(f, ids) =>
      if x in ids then GroupPatch.Sets
      else if ValueFilter(f) == Some(x) then GroupPatch.Clears
      else GroupPatch.Leaves
    case _ => GroupPatch.Leaves
  }

  /** The last operation that touches `x` decides. */
  ghost function LastEffect(ops: seq<PatchOp>, x: Id): GroupPatch.Effect {
    if ops == [] then GroupPatch.Leaves
    else
      var last := OpEffect(ops[|ops| - 1], x);
      if last != GroupPatch.Leaves then last else LastEffect(ops[..|ops| - 1], x)
  }

  /** What the batch does to one id: additions win. */
  function BatchEffect(ops: seq<PatchOp>, x: Id): GroupPatch.Effect {
    if x in GroupPatch.AddedIds(ops) then GroupPatch.Sets
    else if x in GroupPatch.RemovedIds(ops) then GroupPatch.Clears
    else GroupPatch.Leaves
  }

  ghost predicate OpRefused(op: PatchOp) {
    MeaningOf(op).Refused? || (MeaningOf(op).NotOnMembers? && GroupPatch.Own(op).None?)
  }

  /** The member an operation cannot do without. */
  ghost function NeededId(op: PatchOp): Option<Id> {
    match MeaningOf(op)
    case ReplacesMatching(f, _) => ValueFilter(f)
    case NeedsMatch(f) => ValueFilter(f)
    case _ => None
  }

  ghost predicate IdFilter(op: PatchOp) {
    match MeaningOf(op)
    case RemovesMatching(f) => ValueFilter(f).Some?
    case ReplacesMatching(f, _) => ValueFilter(f).Some?
    case NeedsMatch(f) => ValueFilter(f).Some?
    case _ => true
  }

  ghost predicate IdFilters(ops: seq<PatchOp>) {
    forall k :: 0 <= k < |ops| ==> IdFilter(ops[k])
  }

  /** Whatever must match something selects by id. */
  ghost predicate NeedById(op: PatchOp) {
    IdFilter(op) || MeaningOf(op).RemovesMatching?
  }

  ghost predicate NeedsById(ops: seq<PatchOp>) {
    forall k :: 0 <= k < |ops| ==> NeedById(ops[k])
  }

  /** No operation is refused, and whoever an operation needs has been added before. */
  ghost predicate NeverRefused(ops: seq<PatchOp>) {
    forall k :: 0 <= k < |ops| ==>
      !OpRefused(ops[k])
      && (NeededId(ops[k]).Some? ==> LastEffect(ops[..k], NeededId(ops[k]).value) == GroupPatch.Sets)
  }

  /** Some operation is refused, or needs somebody who has been removed before. */
  ghost predicate AlwaysRefused(ops: seq<PatchOp>) {
    exists k :: 0 <= k < |ops| &&
      (OpRefused(ops[k])
       || (NeededId(ops[k]).Some? && LastEffect(ops[..k], NeededId(ops[k]).value) == GroupPatch.Clears))
  }

  ghost predicate ListAgrees(ops: seq<PatchOp>) {
    if GroupPatch.AllWellTyped(ops)
    then IdFilters(ops) && NeverRefused(ops) && forall x :: LastEffect(ops, x) == BatchEffect(ops, x)
    else AlwaysRefused(ops)
  }

  /** Membership of `x` after an effect. */
  predicate After(e: GroupPatch.Effect, m: set<Id>, x: Id) {
    e == GroupPatch.Sets || (e == GroupPatch.Leaves && x in m)
  }

  /** From this group, operation `k` is carried out. */
  ghost predicate Goes(ops: seq<PatchOp>, m: set<Id>, k: nat)
    requires k < |ops|
  {
    !OpRefused(ops[k])
    && (NeededId(ops[k]).Some? ==> After(LastEffect(ops[..k], NeededId(ops[k]).value), m, NeededId(ops[k]).value))
  }

  /** The operation's own filter names an id, or is one that selects nobody. */
  ghost predicate Settled(sel: Selection, op: PatchOp) {
    IdFilter(op) || (MeaningOf(op).RemovesMatching? && sel(MeaningOf(op).filter) == {})
  }

  /** Whatever the filters select, an operation does no more than its effect; a settled one does just that. */
  lemma StepEffect(sel: Selection, m: set<Id>, op: PatchOp)
    ensures RfcStep(sel, m, op).Some? ==> !OpRefused(op) && (NeededId(op).Some? ==> NeededId(op).value in m)
    ensures RfcStep(sel, m, op).Some? ==> forall x :: x in RfcStep(sel, m, op).value ==> After(OpEffect(op, x), m, x)
    ensures Settled(sel, op) && !OpRefused(op) && (NeededId(op).Some? ==> NeededId(op).value in m) ==>
              RfcStep(sel, m, op).Some?
    ensures Settled(sel, op) && RfcStep(sel, m, op).Some? ==>
              forall x :: After(OpEffect(op, x), m, x) ==> x in RfcStep(sel, m, op).value
  {
    if NeededId(op).Some? {
      var id := NeededId(op).value;
      assert Selects(sel, MeaningOf(op).filter) == {id};
      assert id in m <==> id in m * {id};
    }
  }

  lemma {:induction false} RfcConcat(sel: Selection, m: set<Id>, a: seq<PatchOp>, op: PatchOp)
    ensures Rfc(sel, m, a + [op]) ==
            match Rfc(sel, m, a) { case None => None case Some(next) => RfcStep(sel, next, op) }
    decreases |a|
  {
    var ops := a + [op];
    if a == [] {
      assert ops == [op] && ops[1..] == [];
    } else {
      assert ops[0] == a[0] && ops[1..] == a[1..] + [op];
      if RfcStep(sel, m, a[0]).Some? {
        RfcConcat(sel, RfcStep(sel, m, a[0]).value, a[1..], op);
      }
    }
  }

  lemma GoesAfter(ops: seq<PatchOp>, m: set<Id>, n: nat)
    requires |ops| == n + 1
    ensures (forall k :: 0 <= k < |ops| ==> Goes(ops, m, k))
            <==> (forall k :: 0 <= k < n ==> Goes(ops[..n], m, k)) && Goes(ops, m, n)
  {
    forall k | 0 <= k < n ensures Goes(ops, m, k) <==> Goes(ops[..n], m, k) {
      assert ops[..n][..k] == ops[..k];
    }
  }

  /** Whatever the filters select, a list that is carried out leaves no more than its last effects say. */
  lemma {:induction false} RfcWithin(sel: Selection, m: set<Id>, ops: seq<PatchOp>)
    requires Rfc(sel, m, ops).Some?
    ensures forall k :: 0 <= k < |ops| ==> Goes(ops, m, k)
    ensures forall x :: x in Rfc(sel, m, ops).value ==> After(LastEffect(ops, x), m, x)
    decreases |ops|
  {
    if ops != [] {
      var n := |ops| - 1;
      assert ops == ops[..n] + [ops[n]];
      RfcConcat(sel, m, ops[..n], ops[n]);
      RfcWithin(sel, m, ops[..n]);
      StepEffect(sel, Rfc(sel, m, ops[..n]).value, ops[n]);
      assert Goes(ops, m, n);
      GoesAfter(ops, m, n);
    }
  }

  /** When the filters are settled, that is the meaning of the list in closed form. */
  lemma {:induction false} RfcIs(sel: Selection, m: set<Id>, ops: seq<PatchOp>)
    requires forall k :: 0 <= k < |ops| ==> Settled(sel, ops[k])
    ensures Rfc(sel, m, ops).Some? <==> forall k :: 0 <= k < |ops| ==> Goes(ops, m, k)
    ensures Rfc(sel, m, ops).Some? ==> forall x :: x in Rfc(sel, m, ops).value <==> After(LastEffect(ops, x), m, x)
    decreases |ops|
  {
    if ops != [] {
      var n := |ops| - 1;
      var init := ops[..n];
      assert ops == init + [ops[n]];
      RfcIs(sel, m, init);
      RfcConcat(sel, m, init, ops[n]);
      GoesAfter(ops, m, n);
      if Rfc(sel, m, init).Some? {
        StepEffect(sel, Rfc(sel, m, init).value, ops[n]);
        assert Goes(ops, m, n) <==> RfcStep(sel, Rfc(sel, m, init).value, ops[n]).Some?;
      }
    }
  }

  lemma BatchEffects(m: set<Id>, ops: seq<PatchOp>)
    ensures GroupPatch.Batch(m, ops).Some? <==> GroupPatch.AllWellTyped(ops)
    ensures GroupPatch.AllWellTyped(ops) ==>
              forall x :: x in GroupPatch.Batch(m, ops).value <==> After(BatchEffect(ops, x), m, x)
  {
    GroupPatch.BatchIs(m, ops);
  }

  /** A list that both refuse, whatever its filters. */
  lemma RefusedListMeansRfc(ops: seq<PatchOp>)
    requires !GroupPatch.AllWellTyped(ops) && AlwaysRefused(ops)
    ensures ListMeansRfc(ops)
  {
    var k :| 0 <= k < |ops|
      && (OpRefused(ops[k])
          || (NeededId(ops[k]).Some? && LastEffect(ops[..k], NeededId(ops[k]).value) == GroupPatch.Clears));
    forall m: set<Id>, sel: Selection ensures GroupPatch.Batch(m, ops) == Rfc(sel, m, ops) {
      BatchEffects(m, ops);
      assert !Goes(ops, m, k);
      if Rfc(sel, m, ops).Some? { RfcWithin(sel, m, ops); }
    }
  }

  lemma AgreeingListMeansRfc(ops: seq<PatchOp>)
    requires GroupPatch.AllWellTyped(ops) && ListAgrees(ops)
    ensures ListMeansRfc(ops)
  {
    forall m: set<Id>, sel: Selection ensures GroupPatch.Batch(m, ops) == Rfc(sel, m, ops) {
      RfcIs(sel, m, ops);
      BatchEffects(m, ops);
      assert forall k :: 0 <= k < |ops| ==> Goes(ops, m, k);
      assert GroupPatch.Batch(m, ops).value == Rfc(sel, m, ops).value;
    }
  }

  function Nobody(): Selection {
    _ => {}
  }

  lemma TypedListAgrees(ops: seq<PatchOp>)
    requires IdFilters(ops) && ListMeansRfc(ops) && GroupPatch.AllWellTyped(ops)
    ensures ListAgrees(ops)
  {
    var sel := Nobody();
    assert GroupPatch.Batch({}, ops) == Rfc(sel, {}, ops);
    RfcIs(sel, {}, ops);
    BatchEffects({}, ops);
    assert NeverRefused(ops) by {
      forall k | 0 <= k < |ops|
        ensures !OpRefused(ops[k])
        ensures NeededId(ops[k]).Some? ==> LastEffect(ops[..k], NeededId(ops[k]).value) == GroupPatch.Sets
      {
        assert Goes(ops, {}, k);
      }
    }
    forall x ensures LastEffect(ops, x) == BatchEffect(ops, x) {
      assert GroupPatch.Batch({x}, ops) == Rfc(sel, {x}, ops);
      RfcIs(sel, {x}, ops);
      BatchEffects({x}, ops);
      assert After(LastEffect(ops, x), {}, x) == After(BatchEffect(ops, x), {}, x);
      assert After(LastEffect(ops, x), {x}, x) == After(BatchEffect(ops, x), {x}, x);
    }
  }

  lemma IllTypedListAgrees(ops: seq<PatchOp>)
    requires NeedsById(ops) && ListMeansRfc(ops) && !GroupPatch.AllWellTyped(ops)
    ensures ListAgrees(ops)
  {
    var sel := Nobody();
    var m := set k | 0 <= k < |ops| && NeededId(ops[k]).Some? :: NeededId(ops[k]).value;
    assert GroupPatch.Batch(m, ops) == Rfc(sel, m, ops);
    RfcIs(sel, m, ops);
    BatchEffects(m, ops);
    var k :| 0 <= k < |ops| && !Goes(ops, m, k);
    assert NeededId(ops[k]).Some? ==> NeededId(ops[k]).value in m;
  }

  // ---------------------------------------------------------------- filters that name no id

  function Only(x: Id): Selection {
    _ => {x}
  }

  /** The ids that the section reads in an operation. */
  ghost function ReadIds(op: PatchOp): set<Id> {
    match MeaningOf(op)
    case Adds(ids) => ids
    case Removes(ids) => ids
    case Becomes(ids) => ids
    case ReplacesMatching(_, ids) => ids
    case _ => {}
  }

  ghost function AllReadIds(ops: seq<PatchOp>): (ids: set<Id>)
    ensures forall op :: op in ops ==> ReadIds(op) <= ids
  {
    if ops == [] then {} else ReadIds(ops[0]) + AllReadIds(ops[1..])
  }

  /** A replacement that needs a match finds none when nobody is selected. */
  lemma {:induction false} UnmatchedIsRefused(m: set<Id>, ops: seq<PatchOp>, k: nat)
    requires k < |ops| && !NeedById(ops[k])
    ensures Rfc(Nobody(), m, ops).None?
    decreases |ops|
  {
    if k == 0 {
      var f := MeaningOf(ops[0]).filter;
      assert m * Selects(Nobody(), f) == {};
    } else if RfcStep(Nobody(), m, ops[0]).Some? {
      UnmatchedIsRefused(RfcStep(Nobody(), m, ops[0]).value, ops[1..], k - 1);
    }
  }

  /** A stranger whom a removal selects, and nobody else mentions, is out in the end. */
  lemma {:induction false} StrangerGoes(x: Id, m: set<Id>, ops: seq<PatchOp>)
    requires forall op :: op in ops ==> x !in ReadIds(op)
    requires x !in m || exists k :: 0 <= k < |ops| && MeaningOf(ops[k]).RemovesMatching? && !IdFilter(ops[k])
    ensures Rfc(Only(x), m, ops).Some? ==> x !in Rfc(Only(x), m, ops).value
    decreases |ops|
  {
    if ops != [] && RfcStep(Only(x), m, ops[0]).Some? {
      assert ops[0] in ops;
      var next := RfcStep(Only(x), m, ops[0]).value;
      if x in next {
        var k :| 0 <= k < |ops| && MeaningOf(ops[k]).RemovesMatching? && !IdFilter(ops[k]);
        assert k > 0;
        assert ops[1..][k - 1] == ops[k];
      }
      StrangerGoes(x, next, ops[1..]);
    }
  }

  /** The source carries out a list with another filter as if nobody matched; somebody may. */
  lemma OtherFiltersDiffer(ops: seq<PatchOp>)
    requires GroupPatch.AllWellTyped(ops) && !IdFilters(ops)
    ensures !ListMeansRfc(ops)
  {
    var k :| 0 <= k < |ops| && !IdFilter(ops[k]);
    if !NeedById(ops[k]) {
      UnmatchedIsRefused({}, ops, k);
      BatchEffects({}, ops);
      assert GroupPatch.Batch({}, ops) != Rfc(Nobody(), {}, ops);
    } else {
      var x := FreshString(AllReadIds(ops) + GroupPatch.AddedIds(ops) + GroupPatch.RemovedIds(ops));
      StrangerGoes(x, {x}, ops);
      BatchEffects({x}, ops);
      assert x in GroupPatch.Batch({x}, ops).value;
      assert GroupPatch.Batch({x}, ops) != Rfc(Only(x), {x}, ops);
    }
  }

  /** The source does what the section says, for all groups and filters, if and only if the list is carried
      out by neither, or by both with the same last word on every id. For lists the source carries out, no
      condition; for those it refuses, whatever must match something has to select by id. */
  lemma BatchMeansRfc(ops: seq<PatchOp>)
    requires GroupPatch.AllWellTyped(ops) || NeedsById(ops)
    ensures ListMeansRfc(ops) <==> ListAgrees(ops)
  {
    if GroupPatch.AllWellTyped(ops) {
      if ListAgrees(ops) {
        AgreeingListMeansRfc(ops);
      } else if !IdFilters(ops) {
        OtherFiltersDiffer(ops);
      } else if ListMeansRfc(ops) {
        TypedListAgrees(ops);
      }
    } else if ListAgrees(ops) {
      RefusedListMeansRfc(ops);
    } else if ListMeansRfc(ops) {
      IllTypedListAgrees(ops);
    }
  }
}

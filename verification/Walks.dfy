/** A client's walk through the pages of a list that other requests change meanwhile. */
module Walks {
  import opened Prelude
  import opened Tables
  import opened Resources
  import opened FilterUtil
  import opened Api
  import opened Concurrency
  import opened Steps
  import opened Runs
  import opened Listing
  import GroupStore

  // ---------------------------------------------------------------- a walk through the pages

  /** What a client has gathered that asks for `counts[k]` rows on its k-th request, finds the list to
      be `lists[k]` then, and asks on from the row after those it has `seen`. */
  function WalkFrom(seen: seq<Id>, lists: seq<seq<Id>>, counts: seq<nat>): seq<Id>
    requires |lists| == |counts|
    decreases |lists|
  {
    if lists == [] then seen
    else WalkFrom(seen + Page(lists[0], Pagination(|seen| + 1, counts[0])), lists[1..], counts[1..])
  }

  function Walk(lists: seq<seq<Id>>, counts: seq<nat>): seq<Id>
    requires |lists| == |counts|
  {
    WalkFrom([], lists, counts)
  }

  /** The list only ever grows at its end. */
  ghost predicate Growing(lists: seq<seq<Id>>) {
    forall i, j :: 0 <= i <= j < |lists| ==> lists[i] <= lists[j]
  }

  /** The next page continues where the walk stands. */
  lemma PageContinues(list: seq<Id>, seen: seq<Id>, count: nat)
    requires seen <= list
    ensures var page := Page(list, Pagination(|seen| + 1, count));
            seen + page <= list && |page| == Min(count, |list| - |seen|)
  {
  }

  lemma GrowingRest(lists: seq<seq<Id>>)
    requires |lists| > 1 && Growing(lists)
    ensures Growing(lists[1..]) && lists[0] <= lists[1]
  {
    forall i, j | 0 <= i <= j < |lists[1..]| ensures lists[1..][i] <= lists[1..][j] {
      assert lists[i + 1] <= lists[j + 1];
    }
  }

  /** The rows walked so far are the beginning of the list. */
  lemma {:induction false} WalkIsPrefix(seen: seq<Id>, lists: seq<seq<Id>>, counts: seq<nat>)
    requires |lists| == |counts| && lists != [] && Growing(lists)
    requires seen <= lists[0]
    ensures WalkFrom(seen, lists, counts) <= lists[|lists| - 1]
    decreases |lists|
  {
    PageContinues(lists[0], seen, counts[0]);
    if |lists| > 1 {
      GrowingRest(lists);
      WalkIsPrefix(seen + Page(lists[0], Pagination(|seen| + 1, counts[0])), lists[1..], counts[1..]);
    }
  }

  /** A completed walk over a list that only grows meets every row of the last list exactly once, in
      creation order, and so every row that was there at the start. The walk is complete when one more
      request, on the list as the last request saw it, brings nothing although it asks for a row. */
  lemma WalkComplete(lists: seq<seq<Id>>, counts: seq<nat>, more: nat)
    requires |lists| == |counts| && lists != [] && Growing(lists)
    requires more > 0
    requires Page(lists[|lists| - 1], Pagination(|Walk(lists, counts)| + 1, more)) == []
    ensures Walk(lists, counts) == lists[|lists| - 1]
    ensures lists[0] <= Walk(lists, counts)
  {
    WalkIsPrefix([], lists, counts);
    PageContinues(lists[|lists| - 1], Walk(lists, counts), more);
    assert lists[0] <= lists[|lists| - 1];
  }

  /** On a list that does not change, as many non-empty requests as there are rows complete the walk. */
  lemma {:induction false} WalkOfUnchangingList(seen: seq<Id>, list: seq<Id>, counts: seq<nat>)
    requires seen <= list && |counts| >= |list| - |seen|
    requires forall k :: 0 <= k < |counts| ==> counts[k] > 0
    ensures WalkFrom(seen, seq(|counts|, i => list), counts) == list
    decreases |counts|
  {
    if counts != [] {
      PageContinues(list, seen, counts[0]);
      assert seq(|counts|, i => list)[1..] == seq(|counts[1..]|, i => list);
      WalkOfUnchangingList(seen + Page(list, Pagination(|seen| + 1, counts[0])), list, counts[1..]);
    }
  }

  // ---------------------------------------------------------------- what keeps the lists growing

  predicate DropsUsers(req: Request) {
    req.RemoveUser? || req.ClearData?
  }

  predicate DropsGroups(req: Request) {
    req.RemoveGroup? || req.ClearData?
  }

  /** No request in flight or arriving deletes rows of the table; those that finished earlier may have. */
  predicate Undisturbed(c: Config, events: seq<Event>, drops: Request -> bool) {
    && (forall tid :: tid in c.threads && c.threads[tid].Running? ==> !drops(c.threads[tid].req))
    && (forall e :: e in events && e.Arrive? ==> !drops(e.req))
  }

  lemma StepGrowsUsers(db: Database, newId: Id, req: Request, pc: Pc)
    requires !DropsUsers(req) && OnTrack(req, pc)
    ensures db.users.order <= StepThread(db, newId, req, pc).0.users.order
  {
    if pc == Write {
      match req
      case CreateGroup(dto) =>
        GroupStore.InsertMembersKeepsGroups(db.(groups := InsertRow(db.groups, newId, GroupToCreate(dto))), newId, MemberList(dto));
      case ReplaceGroup(id, dto) => GroupStore.TransactionKeepsGroups(db, ReplaceStmts(id, dto));
      case PatchGroup(id, p) => GroupStore.TransactionKeepsGroups(db, GroupStore.PatchStmts(id, p));
      case _ =>
    }
  }

  lemma StepGrowsGroups(db: Database, newId: Id, req: Request, pc: Pc)
    requires !DropsGroups(req) && OnTrack(req, pc)
    ensures db.groups.order <= StepThread(db, newId, req, pc).0.groups.order
  {
    if pc == Write {
      match req
      case CreateGroup(dto) =>
        GroupStore.InsertMembersKeepsGroups(db.(groups := InsertRow(db.groups, newId, GroupToCreate(dto))), newId, MemberList(dto));
      case ReplaceGroup(id, dto) => GroupStore.TransactionKeepsGroups(db, ReplaceStmts(id, dto));
      case PatchGroup(id, p) => GroupStore.TransactionKeepsGroups(db, GroupStore.PatchStmts(id, p));
      case _ =>
    }
  }

  lemma EventGrows(c: Config, l: Ledger, e: Event)
    requires Agrees(c, l)
    ensures Undisturbed(c, [e], DropsUsers) ==> c.db.users.order <= Next(c, e).db.users.order
    ensures Undisturbed(c, [e], DropsGroups) ==> c.db.groups.order <= Next(c, e).db.groups.order
  {
    if e.Advance? && Enabled(c, e) {
      assert ThreadAgrees(c, l, e.tid);
      var th := c.threads[e.tid];
      if !DropsUsers(th.req) { StepGrowsUsers(c.db, e.newId, th.req, th.pc); }
      if !DropsGroups(th.req) { StepGrowsGroups(c.db, e.newId, th.req, th.pc); }
    }
  }

  /** The first event and what follows it are undisturbed when the whole is. */
  lemma UndisturbedParts(c: Config, events: seq<Event>, drops: Request -> bool)
    requires events != [] && Undisturbed(c, events, drops)
    ensures Undisturbed(c, [events[0]], drops) && Undisturbed(Next(c, events[0]), events[1..], drops)
  {
    assert events[0] in events;
    StepKeepsRequest(c, events[0]);
  }

  lemma {:induction false} RunGrows(c: Config, l: Ledger, events: seq<Event>)
    requires Agrees(c, l)
    ensures Undisturbed(c, events, DropsUsers) ==> c.db.users.order <= Run(c, events).db.users.order
    ensures Undisturbed(c, events, DropsGroups) ==> c.db.groups.order <= Run(c, events).db.groups.order
    decreases |events|
  {
    if events != [] {
      EventGrows(c, l, events[0]);
      EventAgrees(c, l, events[0]);
      RunGrows(Next(c, events[0]), SerialRun(l, Effects(c, events[0])), events[1..]);
      if Undisturbed(c, events, DropsUsers) { UndisturbedParts(c, events, DropsUsers); }
      if Undisturbed(c, events, DropsGroups) { UndisturbedParts(c, events, DropsGroups); }
    }
  }

  /** The user lists a walk meets when `gaps[k]` happens before its k-th request. */
  function ListsSeen(c: Config, gaps: seq<seq<Event>>): seq<seq<Id>>
    decreases |gaps|
  {
    if gaps == [] then [] else [Run(c, gaps[0]).db.users.order] + ListsSeen(Run(c, gaps[0]), gaps[1..])
  }

  function GroupListsSeen(c: Config, gaps: seq<seq<Event>>): seq<seq<Id>>
    decreases |gaps|
  {
    if gaps == [] then [] else [Run(c, gaps[0]).db.groups.order] + GroupListsSeen(Run(c, gaps[0]), gaps[1..])
  }

  predicate AllUndisturbed(c: Config, gaps: seq<seq<Event>>, drops: Request -> bool) {
    && (forall tid :: tid in c.threads && c.threads[tid].Running? ==> !drops(c.threads[tid].req))
    && (forall g, e :: g in gaps && e in g && e.Arrive? ==> !drops(e.req))
  }

  lemma {:induction false} ThreadsStayUndisturbed(c: Config, events: seq<Event>, drops: Request -> bool)
    requires Undisturbed(c, events, drops)
    ensures Undisturbed(Run(c, events), [], drops)
    decreases |events|
  {
    if events != [] {
      UndisturbedParts(c, events, drops);
      ThreadsStayUndisturbed(Next(c, events[0]), events[1..], drops);
    }
  }

  lemma GapParts(c: Config, gaps: seq<seq<Event>>, drops: Request -> bool)
    requires gaps != [] && AllUndisturbed(c, gaps, drops)
    ensures Undisturbed(c, gaps[0], drops) && AllUndisturbed(Run(c, gaps[0]), gaps[1..], drops)
  {
    assert gaps[0] in gaps;
    ThreadsStayUndisturbed(c, gaps[0], drops);
  }

  lemma {:induction false} ListsSeenGrow(c: Config, l: Ledger, gaps: seq<seq<Event>>)
    requires Agrees(c, l)
    ensures |ListsSeen(c, gaps)| == |gaps|
    ensures AllUndisturbed(c, gaps, DropsUsers) ==> Growing([c.db.users.order] + ListsSeen(c, gaps))
    ensures forall s :: s in ListsSeen(c, gaps) ==> NoDup(s)
    decreases |gaps|
  {
    if gaps != [] {
      RunAgrees(c, l, gaps[0]);
      RunGrows(c, l, gaps[0]);
      ListsSeenGrow(Run(c, gaps[0]), SerialRun(l, History(c, gaps[0])), gaps[1..]);
      if AllUndisturbed(c, gaps, DropsUsers) {
        GapParts(c, gaps, DropsUsers);
        GrowingCons(c.db.users.order, ListsSeen(c, gaps));
      }
    }
  }

  lemma {:induction false} GroupListsSeenGrow(c: Config, l: Ledger, gaps: seq<seq<Event>>)
    requires Agrees(c, l)
    ensures |GroupListsSeen(c, gaps)| == |gaps|
    ensures AllUndisturbed(c, gaps, DropsGroups) ==> Growing([c.db.groups.order] + GroupListsSeen(c, gaps))
    ensures forall s :: s in GroupListsSeen(c, gaps) ==> NoDup(s)
    decreases |gaps|
  {
    if gaps != [] {
      RunAgrees(c, l, gaps[0]);
      RunGrows(c, l, gaps[0]);
      GroupListsSeenGrow(Run(c, gaps[0]), SerialRun(l, History(c, gaps[0])), gaps[1..]);
      if AllUndisturbed(c, gaps, DropsGroups) {
        GapParts(c, gaps, DropsGroups);
        GrowingCons(c.db.groups.order, GroupListsSeen(c, gaps));
      }
    }
  }

  lemma GrowingCons(s: seq<Id>, lists: seq<seq<Id>>)
    requires lists != [] && Growing(lists) && s <= lists[0]
    ensures Growing([s] + lists)
  {
    forall i, j | 0 <= i <= j < |[s] + lists| ensures ([s] + lists)[i] <= ([s] + lists)[j] {
      if j > 0 {
        assert lists[0] <= lists[j - 1];
        if i > 0 { assert lists[i - 1] <= lists[j - 1]; }
      }
    }
  }

  /** While any requests but deletions run, started before or during the walk, a completed unfiltered
      walk of the users yields every user there at the start exactly once and in creation order. */
  lemma UserWalkUnderGrowth(db: Database, before: seq<Event>, gaps: seq<seq<Event>>, counts: seq<nat>, more: nat)
    requires Valid(db) && gaps != [] && |counts| == |gaps| && more > 0
    requires AllUndisturbed(After(db, before), gaps, DropsUsers)
    requires var lists := ListsSeen(After(db, before), gaps);
             |lists| == |counts| && Page(lists[|lists| - 1], Pagination(|Walk(lists, counts)| + 1, more)) == []
    ensures var walked := Walk(ListsSeen(After(db, before), gaps), counts);
            NoDup(walked) && After(db, before).db.users.order <= walked
  {
    StartAgrees(db);
    RunAgrees(Start(db), Ledger(db, map[]), before);
    var c, l := After(db, before), SerialAfter(db, before);
    ListsSeenGrow(c, l, gaps);
    var lists := ListsSeen(c, gaps);
    GrowingTail(c.db.users.order, lists);
    WalkComplete(lists, counts, more);
    assert lists[|lists| - 1] in lists;
  }

  /** The same for groups. */
  lemma GroupWalkUnderGrowth(db: Database, before: seq<Event>, gaps: seq<seq<Event>>, counts: seq<nat>, more: nat)
    requires Valid(db) && gaps != [] && |counts| == |gaps| && more > 0
    requires AllUndisturbed(After(db, before), gaps, DropsGroups)
    requires var lists := GroupListsSeen(After(db, before), gaps);
             |lists| == |counts| && Page(lists[|lists| - 1], Pagination(|Walk(lists, counts)| + 1, more)) == []
    ensures var walked := Walk(GroupListsSeen(After(db, before), gaps), counts);
            NoDup(walked) && After(db, before).db.groups.order <= walked
  {
    StartAgrees(db);
    RunAgrees(Start(db), Ledger(db, map[]), before);
    var c, l := After(db, before), SerialAfter(db, before);
    GroupListsSeenGrow(c, l, gaps);
    var lists := GroupListsSeen(c, gaps);
    GrowingTail(c.db.groups.order, lists);
    WalkComplete(lists, counts, more);
    assert lists[|lists| - 1] in lists;
  }

  lemma GrowingTail(s: seq<Id>, lists: seq<seq<Id>>)
    requires lists != [] && Growing([s] + lists)
    ensures Growing(lists) && s <= lists[0]
  {
    assert ([s] + lists)[0] <= ([s] + lists)[1];
    forall i, j | 0 <= i <= j < |lists| ensures lists[i] <= lists[j] {
      assert ([s] + lists)[i + 1] <= ([s] + lists)[j + 1];
    }
  }

  // ---------------------------------------------------------------- lists that lose rows as well

  function In(list: seq<Id>): Id -> bool {
    x => x in list
  }

  /** `after` comes from `list` by deletions and by rows that were never issued before, at the end. */
  ghost predicate Follows(list: seq<Id>, issued: set<Id>, after: seq<Id>) {
    && Keep(list, In(after)) <= after
    && forall x :: x in after && x in issued ==> x in list
  }

  /** Every list follows the one before it; `issued` holds the ids given out by then. */
  ghost predicate Evolving(list: seq<Id>, issued: set<Id>, lists: seq<seq<Id>>, issueds: seq<set<Id>>)
    requires |lists| == |issueds|
    decreases |lists|
  {
    lists != [] ==>
      && Follows(list, issued, lists[0])
      && issued <= issueds[0] && Elems(lists[0]) <= issueds[0] && NoDup(lists[0])
      && Evolving(lists[0], issueds[0], lists[1..], issueds[1..])
  }

  /** No row before the next page is unseen. */
  ghost predicate NonePassed(seen: seq<Id>, list: seq<Id>) {
    forall i :: 0 <= i < |seen| && i < |list| ==> list[i] in seen
  }

  /** No seen row is gone, or no unseen row is left. */
  predicate SeenStands(seen: seq<Id>, list: seq<Id>) {
    (forall x :: x in seen ==> x in list) || (forall x :: x in list ==> x in seen)
  }

  function NextSeen(seen: seq<Id>, list: seq<Id>, count: nat): seq<Id> {
    seen + Page(list, Pagination(|seen| + 1, count))
  }

  /** The walk passes over no row, at any of its requests. */
  ghost predicate PassesNone(seen: seq<Id>, lists: seq<seq<Id>>, counts: seq<nat>)
    requires |lists| == |counts|
    decreases |lists|
  {
    lists != [] ==> NonePassed(seen, lists[0]) && PassesNone(NextSeen(seen, lists[0], counts[0]), lists[1..], counts[1..])
  }

  /** At no request has a row already seen been deleted while a row is unseen. */
  predicate NoSeenRowDeletedEarly(seen: seq<Id>, lists: seq<seq<Id>>, counts: seq<nat>)
    requires |lists| == |counts|
    decreases |lists|
  {
    lists != [] ==>
      SeenStands(seen, lists[0]) && NoSeenRowDeletedEarly(NextSeen(seen, lists[0], counts[0]), lists[1..], counts[1..])
  }

  /** The seen rows that are left are the beginning of the list. */
  ghost predicate Aligned(seen: seq<Id>, list: seq<Id>) {
    Keep(seen, In(list)) <= list
  }

  /** What is seen lies before the next page, or is gone. */
  ghost predicate Beyond(list: seq<Id>, n: nat, rows: set<Id>) {
    forall m :: n <= m < |list| ==> list[m] !in rows
  }

  lemma AlignedFollows(seen: seq<Id>, list: seq<Id>, issued: set<Id>, after: seq<Id>)
    requires Aligned(seen, list) && Follows(list, issued, after) && Elems(seen) <= issued
    ensures Aligned(seen, after)
  {
    forall x | x in seen ensures In(after)(x) <==> In(list)(x) && In(after)(x) {
      assert x in Elems(seen);
    }
    KeepKeep(seen, In(list), In(after), In(after));
    KeepPrefix(Keep(seen, In(list)), list, In(after));
  }

  lemma BeyondFollows(list: seq<Id>, issued: set<Id>, after: seq<Id>, n: nat, rows: set<Id>)
    requires Beyond(list, n, rows) && Follows(list, issued, after) && rows <= issued && NoDup(after)
    ensures Beyond(after, n, rows)
  {
    var kept := Keep(list, In(after));
    forall m | n <= m < |after| ensures after[m] !in rows {
      if after[m] in rows {
        assert after[m] in kept;
        var j :| 0 <= j < |kept| && kept[j] == after[m];
        assert after[j] == after[m];
        var k := KeepMovesLeft(list, In(after), j);
      }
    }
  }

  /** With the seen rows in front, a row is passed over exactly when a seen row is gone and a row is unseen. */
  lemma PassedWhen(seen: seq<Id>, list: seq<Id>)
    requires Aligned(seen, list) && NoDup(list)
    ensures NonePassed(seen, list) <==> SeenStands(seen, list)
    ensures SeenStands(seen, list) ==> seen <= list || (|list| <= |seen| && forall x :: x in list ==> x in seen)
  {
    var s := Keep(seen, In(list));
    if |s| == |seen| {
      KeepFull(seen, In(list));
      KeepAll(seen, In(list));
    } else if |s| < |list| {
      assert list[|s|] !in s by {
        assert forall i :: 0 <= i < |s| ==> s[i] == list[i];
      }
      assert list[|s|] in list && list[|s|] !in seen;
      if forall x :: x in seen ==> x in list {
        KeepAll(seen, In(list));
      }
    } else {
      assert s == list;
    }
  }

  lemma AlignedAfterPage(seen: seq<Id>, list: seq<Id>, count: nat)
    requires Aligned(seen, list) && NoDup(list) && SeenStands(seen, list)
    ensures Aligned(NextSeen(seen, list, count), list)
  {
    PassedWhen(seen, list);
    if seen <= list {
      PageContinues(list, seen, count);
      KeepAll(NextSeen(seen, list, count), In(list));
    } else {
      assert NextSeen(seen, list, count) == seen;
    }
  }

  /** A page shows only what was not seen. */
  lemma PageIsUnseen(seen: seq<Id>, list: seq<Id>, count: nat)
    requires NoDup(seen) && NoDup(list) && Beyond(list, |seen|, Elems(seen))
    ensures NoDup(NextSeen(seen, list, count))
    ensures Beyond(list, |NextSeen(seen, list, count)|, Elems(NextSeen(seen, list, count)))
  {
    var next := NextSeen(seen, list, count);
    if |seen| < |list| {
      assert forall i :: |seen| <= i < |next| ==> next[i] == list[i];
      forall i, j | 0 <= i < j < |next| ensures next[i] != next[j] {
        if i < |seen| <= j { assert next[i] in Elems(seen); }
      }
      forall m | |next| <= m < |list| ensures list[m] !in Elems(next) {
        assert list[m] !in Elems(seen);
      }
    } else {
      assert next == seen;
    }
  }

  lemma NextSeenIssued(seen: seq<Id>, list: seq<Id>, count: nat, issued: set<Id>)
    requires Elems(seen) <= issued && Elems(list) <= issued
    ensures Elems(NextSeen(seen, list, count)) <= issued
  {
    forall x | x in NextSeen(seen, list, count) ensures x in issued {
      if x in seen { assert x in Elems(seen); } else { assert x in Elems(list); }
    }
  }

  /** The walk passes over no row exactly when no row it has seen is deleted while one is unseen; and then
      the seen rows that are left stay in front. */
  lemma {:induction false} WalkPasses(list: seq<Id>, issued: set<Id>, seen: seq<Id>, lists: seq<seq<Id>>,
                                      issueds: seq<set<Id>>, counts: seq<nat>)
    requires |lists| == |issueds| == |counts| && Evolving(list, issued, lists, issueds)
    requires Aligned(seen, list) && Elems(seen) <= issued
    ensures PassesNone(seen, lists, counts) <==> NoSeenRowDeletedEarly(seen, lists, counts)
    decreases |lists|
  {
    if lists != [] {
      AlignedFollows(seen, list, issued, lists[0]);
      PassedWhen(seen, lists[0]);
      if SeenStands(seen, lists[0]) {
        AlignedAfterPage(seen, lists[0], counts[0]);
        NextSeenIssued(seen, lists[0], counts[0], issueds[0]);
        WalkPasses(lists[0], issueds[0], NextSeen(seen, lists[0], counts[0]), lists[1..], issueds[1..], counts[1..]);
      }
    }
  }

  /** Whatever is deleted, no row is shown twice. */
  lemma {:induction false} WalkNeverRepeats(list: seq<Id>, issued: set<Id>, seen: seq<Id>, lists: seq<seq<Id>>,
                                            issueds: seq<set<Id>>, counts: seq<nat>)
    requires |lists| == |issueds| == |counts| && Evolving(list, issued, lists, issueds)
    requires NoDup(seen) && Elems(seen) <= issued && Beyond(list, |seen|, Elems(seen))
    ensures NoDup(WalkFrom(seen, lists, counts))
    decreases |lists|
  {
    if lists != [] {
      BeyondFollows(list, issued, lists[0], |seen|, Elems(seen));
      PageIsUnseen(seen, lists[0], counts[0]);
      NextSeenIssued(seen, lists[0], counts[0], issueds[0]);
      WalkNeverRepeats(lists[0], issueds[0], NextSeen(seen, lists[0], counts[0]), lists[1..], issueds[1..], counts[1..]);
    }
  }

  /** A row that lies before the next page without having been seen is never shown. */
  lemma {:induction false} PassedRowNeverShown(list: seq<Id>, issued: set<Id>, seen: seq<Id>, lists: seq<seq<Id>>,
                                               issueds: seq<set<Id>>, counts: seq<nat>, r: Id)
    requires |lists| == |issueds| == |counts| && Evolving(list, issued, lists, issueds)
    requires r in issued && r !in seen && Beyond(list, |seen|, {r})
    ensures r !in WalkFrom(seen, lists, counts)
    decreases |lists|
  {
    if lists != [] {
      BeyondFollows(list, issued, lists[0], |seen|, {r});
      var next := NextSeen(seen, lists[0], counts[0]);
      if |seen| < |lists[0]| {
        assert forall i :: |seen| <= i < |next| ==> next[i] == lists[0][i] && next[i] !in {r};
      }
      PassedRowNeverShown(lists[0], issueds[0], next, lists[1..], issueds[1..], counts[1..], r);
    }
  }

  /** If some row is passed over, some row that was listed at a request is never shown. */
  lemma {:induction false} PassingLosesRow(list: seq<Id>, issued: set<Id>, seen: seq<Id>, lists: seq<seq<Id>>,
                                           issueds: seq<set<Id>>, counts: seq<nat>) returns (j: nat, r: Id)
    requires |lists| == |issueds| == |counts| && Evolving(list, issued, lists, issueds)
    requires !PassesNone(seen, lists, counts)
    ensures j < |lists| && r in lists[j] && r !in WalkFrom(seen, lists, counts)
    decreases |lists|
  {
    if !NonePassed(seen, lists[0]) {
      var i :| 0 <= i < |seen| && i < |lists[0]| && lists[0][i] !in seen;
      j, r := 0, lists[0][i];
      var next := NextSeen(seen, lists[0], counts[0]);
      if |seen| < |lists[0]| {
        assert forall k :: |seen| <= k < |next| ==> next[k] == lists[0][k];
      }
      PassedRowNeverShown(lists[0], issueds[0], next, lists[1..], issueds[1..], counts[1..], r);
    } else {
      j, r := PassingLosesRow(lists[0], issueds[0], NextSeen(seen, lists[0], counts[0]), lists[1..], issueds[1..], counts[1..]);
      j := j + 1;
    }
  }

  /** A walk that passes over nothing and is complete has shown all of the last list. */
  lemma {:induction false} PassingNoneShowsAll(seen: seq<Id>, lists: seq<seq<Id>>, counts: seq<nat>, more: nat)
    requires |lists| == |counts| && lists != [] && more > 0 && PassesNone(seen, lists, counts)
    requires Page(lists[|lists| - 1], Pagination(|WalkFrom(seen, lists, counts)| + 1, more)) == []
    ensures forall x :: x in lists[|lists| - 1] ==> x in WalkFrom(seen, lists, counts)
    decreases |lists|
  {
    var next := NextSeen(seen, lists[0], counts[0]);
    if |lists| == 1 {
      assert WalkFrom(seen, lists, counts) == WalkFrom(next, lists[1..], counts[1..]) == next;
      var list := lists[0];
      forall i | 0 <= i < |list| ensures list[i] in next {
        if i >= |seen| { assert next[i] == list[i]; }
      }
    } else {
      PassingNoneShowsAll(next, lists[1..], counts[1..], more);
    }
  }

  // ---------------------------------------------------------------- the lists of a run

  lemma FollowsSelf(list: seq<Id>, issued: set<Id>)
    ensures Follows(list, issued, list)
  {
    KeepAll(list, In(list));
  }

  lemma FollowsAppend(list: seq<Id>, issued: set<Id>, newId: Id)
    requires newId !in issued
    ensures Follows(list, issued, list + [newId])
  {
    KeepAll(list, In(list + [newId]));
  }

  lemma FollowsDrop(list: seq<Id>, issued: set<Id>, id: Id)
    ensures Follows(list, issued, Keep(list, x => x != id))
  {
    KeepSame(list, x => x != id, In(Keep(list, x => x != id)));
  }

  lemma FollowsWipe(list: seq<Id>, issued: set<Id>)
    ensures Follows(list, issued, [])
  {
    KeepNone(list, In([]));
  }

  lemma FollowsOn(list: seq<Id>, issued: set<Id>, mid: seq<Id>, issued': set<Id>, after: seq<Id>)
    requires Follows(list, issued, mid) && Follows(mid, issued', after) && Elems(list) <= issued <= issued'
    ensures Follows(list, issued, after)
  {
    forall x | x in list ensures In(after)(x) <==> In(mid)(x) && In(after)(x) {
      assert x in Elems(list);
    }
    KeepKeep(list, In(mid), In(after), In(after));
    KeepPrefix(Keep(list, In(mid)), mid, In(after));
  }

  lemma UserWriteFollows(db: Database, newId: Id, req: Request, issued: set<Id>)
    requires OnTrack(req, Write) && newId !in issued
    ensures Follows(db.users.order, issued, StepThread(db, newId, req, Write).0.users.order)
  {
    FollowsSelf(db.users.order, issued);
    match req
    case CreateUser(_, _) => FollowsAppend(db.users.order, issued, newId);
    case RemoveUser(id) => FollowsDrop(db.users.order, issued, id);
    case CreateGroup(dto) =>
      GroupStore.InsertMembersKeepsGroups(db.(groups := InsertRow(db.groups, newId, GroupToCreate(dto))), newId, MemberList(dto));
    case ReplaceGroup(id, dto) => GroupStore.TransactionKeepsGroups(db, ReplaceStmts(id, dto));
    case PatchGroup(id, p) => GroupStore.TransactionKeepsGroups(db, GroupStore.PatchStmts(id, p));
    case _ =>
  }

  lemma GroupWriteFollows(db: Database, newId: Id, req: Request, issued: set<Id>)
    requires OnTrack(req, Write) && newId !in issued
    ensures Follows(db.groups.order, issued, StepThread(db, newId, req, Write).0.groups.order)
  {
    FollowsSelf(db.groups.order, issued);
    match req
    case RemoveGroup(id) => FollowsDrop(db.groups.order, issued, id);
    case CreateGroup(dto) =>
      FollowsAppend(db.groups.order, issued, newId);
      GroupStore.InsertMembersKeepsGroups(db.(groups := InsertRow(db.groups, newId, GroupToCreate(dto))), newId, MemberList(dto));
    case ReplaceGroup(id, dto) => GroupStore.TransactionKeepsGroups(db, ReplaceStmts(id, dto));
    case PatchGroup(id, p) => GroupStore.TransactionKeepsGroups(db, GroupStore.PatchStmts(id, p));
    case _ =>
  }

  lemma StepFollows(db: Database, newId: Id, req: Request, pc: Pc, issued: set<Id>)
    requires OnTrack(req, pc) && newId !in issued
    ensures Follows(db.users.order, issued, StepThread(db, newId, req, pc).0.users.order)
    ensures Follows(db.groups.order, issued, StepThread(db, newId, req, pc).0.groups.order)
  {
    FollowsSelf(db.users.order, issued);
    FollowsSelf(db.groups.order, issued);
    FollowsWipe(db.users.order, issued);
    FollowsWipe(db.groups.order, issued);
    if pc == Write {
      UserWriteFollows(db, newId, req, issued);
      GroupWriteFollows(db, newId, req, issued);
    }
  }

  lemma OrdersIssued(c: Config, l: Ledger)
    requires Agrees(c, l)
    ensures Elems(c.db.users.order) <= c.issued && Elems(c.db.groups.order) <= c.issued
    ensures NoDup(c.db.users.order) && NoDup(c.db.groups.order)
  {
    forall x | x in Elems(c.db.users.order) ensures x in c.issued { assert x in IdsOf(c.db); }
    forall x | x in Elems(c.db.groups.order) ensures x in c.issued { assert x in IdsOf(c.db); }
  }

  lemma EventFollows(c: Config, l: Ledger, e: Event)
    requires Agrees(c, l)
    ensures Follows(c.db.users.order, c.issued, Next(c, e).db.users.order)
    ensures Follows(c.db.groups.order, c.issued, Next(c, e).db.groups.order)
    ensures c.issued <= Next(c, e).issued
  {
    FollowsSelf(c.db.users.order, c.issued);
    FollowsSelf(c.db.groups.order, c.issued);
    if e.Advance? && Enabled(c, e) {
      assert ThreadAgrees(c, l, e.tid);
      StepFollows(c.db, e.newId, c.threads[e.tid].req, c.threads[e.tid].pc, c.issued);
    }
  }

  lemma {:induction false} RunFollows(c: Config, l: Ledger, events: seq<Event>)
    requires Agrees(c, l)
    ensures Follows(c.db.users.order, c.issued, Run(c, events).db.users.order)
    ensures Follows(c.db.groups.order, c.issued, Run(c, events).db.groups.order)
    ensures c.issued <= Run(c, events).issued
    decreases |events|
  {
    if events == [] {
      FollowsSelf(c.db.users.order, c.issued);
      FollowsSelf(c.db.groups.order, c.issued);
    } else {
      var c1 := Next(c, events[0]);
      EventFollows(c, l, events[0]);
      EventAgrees(c, l, events[0]);
      OrdersIssued(c, l);
      RunFollows(c1, SerialRun(l, Effects(c, events[0])), events[1..]);
      FollowsOn(c.db.users.order, c.issued, c1.db.users.order, c1.issued, Run(c, events).db.users.order);
      FollowsOn(c.db.groups.order, c.issued, c1.db.groups.order, c1.issued, Run(c, events).db.groups.order);
    }
  }

  /** The ids given out by each request of a walk. */
  function IssuedSeen(c: Config, gaps: seq<seq<Event>>): seq<set<Id>>
    decreases |gaps|
  {
    if gaps == [] then [] else [Run(c, gaps[0]).issued] + IssuedSeen(Run(c, gaps[0]), gaps[1..])
  }

  lemma {:induction false} ListsEvolve(c: Config, l: Ledger, gaps: seq<seq<Event>>)
    requires Agrees(c, l)
    ensures |ListsSeen(c, gaps)| == |GroupListsSeen(c, gaps)| == |IssuedSeen(c, gaps)| == |gaps|
    ensures Evolving(c.db.users.order, c.issued, ListsSeen(c, gaps), IssuedSeen(c, gaps))
    ensures Evolving(c.db.groups.order, c.issued, GroupListsSeen(c, gaps), IssuedSeen(c, gaps))
    decreases |gaps|
  {
    if gaps != [] {
      var c1 := Run(c, gaps[0]);
      var l1 := SerialRun(l, History(c, gaps[0]));
      RunFollows(c, l, gaps[0]);
      RunAgrees(c, l, gaps[0]);
      OrdersIssued(c1, l1);
      ListsEvolve(c1, l1, gaps[1..]);
    }
  }

  // ---------------------------------------------------------------- walks during any requests

  /** What a walk shows that meets the `lists`: never a row twice. It passes over no row if and only if no
      row it has seen is deleted while one is unseen. If it passes over none and one more request would
      bring nothing, it has shown all of the last list; if it passes over one, some row that was listed at
      a request is never shown. */
  ghost predicate WalkIsExact(lists: seq<seq<Id>>, counts: seq<nat>)
    requires |lists| == |counts|
  {
    var walked := Walk(lists, counts);
    && NoDup(walked)
    && (PassesNone([], lists, counts) <==> NoSeenRowDeletedEarly([], lists, counts))
    && (NoSeenRowDeletedEarly([], lists, counts) ==>
          (lists != [] && Page(lists[|lists| - 1], Pagination(|walked| + 1, 1)) == []
           ==> forall x :: x in lists[|lists| - 1] ==> x in walked))
    && (!NoSeenRowDeletedEarly([], lists, counts) ==>
          exists j, r :: 0 <= j < |lists| && r in lists[j] && r !in walked)
  }

  lemma WalkOfEvolvingLists(list: seq<Id>, issued: set<Id>, lists: seq<seq<Id>>, issueds: seq<set<Id>>, counts: seq<nat>)
    requires |lists| == |issueds| == |counts| && Evolving(list, issued, lists, issueds)
    ensures WalkIsExact(lists, counts)
  {
    var walked := Walk(lists, counts);
    WalkPasses(list, issued, [], lists, issueds, counts);
    WalkNeverRepeats(list, issued, [], lists, issueds, counts);
    if NoSeenRowDeletedEarly([], lists, counts) {
      if lists != [] && Page(lists[|lists| - 1], Pagination(|walked| + 1, 1)) == [] {
        PassingNoneShowsAll([], lists, counts, 1);
      }
    } else {
      var j, r := PassingLosesRow(list, issued, [], lists, issueds, counts);
    }
  }

  /** A walk of the users, whatever requests run before it and between its pages. */
  lemma UserWalk(db: Database, before: seq<Event>, gaps: seq<seq<Event>>, counts: seq<nat>)
    requires Valid(db) && |counts| == |gaps|
    ensures |ListsSeen(After(db, before), gaps)| == |counts| && WalkIsExact(ListsSeen(After(db, before), gaps), counts)
  {
    RunFromStartAgrees(db, before);
    var c, l := After(db, before), SerialAfter(db, before);
    ListsEvolve(c, l, gaps);
    WalkOfEvolvingLists(c.db.users.order, c.issued, ListsSeen(c, gaps), IssuedSeen(c, gaps), counts);
  }

  /** The same for groups. */
  lemma GroupWalk(db: Database, before: seq<Event>, gaps: seq<seq<Event>>, counts: seq<nat>)
    requires Valid(db) && |counts| == |gaps|
    ensures |GroupListsSeen(After(db, before), gaps)| == |counts|
            && WalkIsExact(GroupListsSeen(After(db, before), gaps), counts)
  {
    RunFromStartAgrees(db, before);
    var c, l := After(db, before), SerialAfter(db, before);
    ListsEvolve(c, l, gaps);
    WalkOfEvolvingLists(c.db.groups.order, c.issued, GroupListsSeen(c, gaps), IssuedSeen(c, gaps), counts);
  }

  // ---------------------------------------------------------------- one deletion

  lemma {:induction false} DropAt(list: seq<Id>, d: nat)
    requires NoDup(list) && d < |list|
    ensures Keep(list, x => x != list[d]) == list[..d] + list[d + 1..]
  {
    var p := (x: Id) => x != list[d];
    assert list == list[..d] + ([list[d]] + list[d + 1..]);
    KeepConcat(list[..d], [list[d]] + list[d + 1..], p);
    KeepConcat([list[d]], list[d + 1..], p);
    KeepAll(list[..d], p);
    KeepAll(list[d + 1..], p);
    assert Keep([list[d]], p) == [];
  }

  /** The two calls of a user's deletion in flight take exactly that user out of the list. */
  lemma DeletionRuns(c: Config, l: Ledger, tid: Tid, id: Id, i: Id, j: Id)
    requires Agrees(c, l) && tid in c.threads && c.threads[tid] == Running(RemoveUser(id), Check)
    requires id in c.db.users.rows && i !in c.issued && j !in c.issued + {i}
    ensures Run(c, [Advance(tid, i), Advance(tid, j)]).db.users.order == Keep(c.db.users.order, x => x != id)
  {
    var e1, e2 := Advance(tid, i), Advance(tid, j);
    assert [e1, e2][1..] == [e2] && [e2][1..] == [];
    var c1 := Next(c, e1);
    assert c1 == Config(c.db, c.issued + {i}, c.threads[tid := Running(RemoveUser(id), Write)]);
    assert Run(c, [e1, e2]) == Run(Next(c1, e2), []);
  }

  /** After the row at `d`, among the first `k`, is gone, the row at `k` lies before the next page. */
  lemma DropBefore(list: seq<Id>, d: nat, k: nat, count: nat)
    requires NoDup(list) && d < k < |list|
    ensures var left := list[..d] + list[d + 1..];
            var next := NextSeen(list[..k], left, count);
            list[k] in left && list[k] !in next && Beyond(left, |next|, {list[k]})
  {
    var left := list[..d] + list[d + 1..];
    var next := NextSeen(list[..k], left, count);
    assert left[k - 1] == list[k];
    assert forall m :: k <= m < |left| ==> left[m] == list[m + 1];
    assert |next| >= k && forall m :: k <= m < |next| ==> next[m] == left[m];
    assert forall m :: 0 <= m < k ==> next[m] == list[m];
  }

  /** A row behind the seen ones can go. */
  lemma DropBehind(list: seq<Id>, d: nat, k: nat)
    requires k <= d < |list|
    ensures list[..k] <= list[..d] + list[d + 1..]
    ensures SeenStands(list[..k], list[..d] + list[d + 1..])
  {
    var left := list[..d] + list[d + 1..];
    assert forall i :: 0 <= i < k ==> list[..k][i] == left[i];
  }

  /** In a run: a walk has seen the first `k` users when the user at position `d` is deleted. If it was
      one of those, the next unseen user is never shown, whatever follows; otherwise nothing seen is gone. */
  lemma DeletionSkipsRow(c: Config, l: Ledger, tid: Tid, k: nat, d: nat, i: Id, j: Id,
                         gaps: seq<seq<Event>>, counts: seq<nat>)
    requires Agrees(c, l) && k < |c.db.users.order| && d < |c.db.users.order| && |counts| == |gaps| + 1
    requires tid in c.threads && c.threads[tid] == Running(RemoveUser(c.db.users.order[d]), Check)
    requires i !in c.issued && j !in c.issued + {i}
    ensures var list := c.db.users.order;
            var lists := ListsSeen(c, [[Advance(tid, i), Advance(tid, j)]] + gaps);
      && |lists| == |counts|
      && (d < k ==> list[k] in lists[0] && list[k] !in WalkFrom(list[..k], lists, counts))
      && (d >= k ==> SeenStands(list[..k], lists[0]) && list[..k] <= lists[0])
  {
    var list := c.db.users.order;
    var deletion := [Advance(tid, i), Advance(tid, j)];
    var c1, l1 := Run(c, deletion), SerialRun(l, History(c, deletion));
    OrdersIssued(c, l);
    assert list[d] in list;
    DeletionRuns(c, l, tid, list[d], i, j);
    DropAt(list, d);
    RunAgrees(c, l, deletion);
    OrdersIssued(c1, l1);
    ListsEvolve(c1, l1, gaps);
    assert ([deletion] + gaps)[1..] == gaps;
    var rest := ListsSeen(c1, gaps);
    var lists := ListsSeen(c, [deletion] + gaps);
    assert lists == [c1.db.users.order] + rest && lists[1..] == rest;
    if d < k {
      DropBefore(list, d, k, counts[0]);
      assert list[k] in Elems(c1.db.users.order);
      PassedRowNeverShown(c1.db.users.order, c1.issued, NextSeen(list[..k], c1.db.users.order, counts[0]),
                          rest, IssuedSeen(c1, gaps), counts[1..], list[k]);
    } else {
      DropBehind(list, d, k);
    }
  }
}

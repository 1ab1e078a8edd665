/** Page walks as a client makes them: each page is the answer to a listing request. */
module ListedWalks {
  import opened Prelude
  import opened Tables
  import opened Api
  import opened FilterUtil
  import opened Concurrency
  import opened Steps
  import opened Runs
  import opened Listing
  import opened Walks

  datatype Kind = Users | Groups

  /** The rows of a kind by creation. */
  function Order(kind: Kind, db: Database): seq<Id> {
    match kind
    case Users => db.users.order
    case Groups => db.groups.order
  }

  /** The answer to GET /Users or GET /Groups. */
  function Listed(kind: Kind, db: Database, filter: Option<string>, startIndex: int, count: int): ListResult {
    var f, p := ParseEqFilter(filter), ParsePagination(Some(startIndex), Some(count));
    match kind
    case Users => ListUsers(db, f, p)
    case Groups => ListGroups(db, f, p)
  }

  /** What a client has gathered that asks for `counts[k]` rows on its k-th request, from the row after
      those it has `seen`, and finds the tables to be `dbs[k]` then. */
  function Walked(kind: Kind, filter: Option<string>, seen: seq<Id>, dbs: seq<Database>, counts: seq<nat>): seq<Id>
    requires |dbs| == |counts|
    decreases |dbs|
  {
    if dbs == [] then seen
    else Walked(kind, filter, seen + Listed(kind, dbs[0], filter, |seen| + 1, counts[0]).ids, dbs[1..], counts[1..])
  }

  /** What it has gathered before its k-th request. */
  function WalkedBefore(kind: Kind, dbs: seq<Database>, counts: seq<nat>, k: nat): seq<Id>
    requires |dbs| == |counts| && k <= |dbs|
  {
    Walked(kind, None, [], dbs[..k], counts[..k])
  }

  /** One more request, for at least one row, would bring nothing. */
  predicate Complete(kind: Kind, dbs: seq<Database>, counts: seq<nat>)
    requires |dbs| == |counts| && dbs != []
  {
    Listed(kind, dbs[|dbs| - 1], None, |Walked(kind, None, [], dbs, counts)| + 1, 1).ids == []
  }

  function Orders(kind: Kind, dbs: seq<Database>): seq<seq<Id>> {
    seq(|dbs|, i requires 0 <= i < |dbs| => Order(kind, dbs[i]))
  }

  // ---------------------------------------------------------------- pages of lists

  lemma ListedIsPage(kind: Kind, db: Database, startIndex: int, count: nat)
    requires startIndex >= 1
    ensures Listed(kind, db, None, startIndex, count).ids == Page(Order(kind, db), Pagination(startIndex, count))
  {
  }

  lemma {:induction false} WalkedIs(kind: Kind, seen: seq<Id>, dbs: seq<Database>, counts: seq<nat>)
    requires |dbs| == |counts|
    ensures Walked(kind, None, seen, dbs, counts) == WalkFrom(seen, Orders(kind, dbs), counts)
    decreases |dbs|
  {
    if dbs != [] {
      ListedIsPage(kind, dbs[0], |seen| + 1, counts[0]);
      assert Orders(kind, dbs)[1..] == Orders(kind, dbs[1..]);
      WalkedIs(kind, NextSeen(seen, Order(kind, dbs[0]), counts[0]), dbs[1..], counts[1..]);
    }
  }

  lemma {:induction false} StandsAtEach(seen: seq<Id>, lists: seq<seq<Id>>, counts: seq<nat>)
    requires |lists| == |counts|
    ensures NoSeenRowDeletedEarly(seen, lists, counts)
            <==> forall k :: 0 <= k < |lists| ==> SeenStands(WalkFrom(seen, lists[..k], counts[..k]), lists[k])
    ensures PassesNone(seen, lists, counts)
            <==> forall k :: 0 <= k < |lists| ==> NonePassed(WalkFrom(seen, lists[..k], counts[..k]), lists[k])
    decreases |lists|
  {
    if lists != [] {
      var next := NextSeen(seen, lists[0], counts[0]);
      StandsAtEach(next, lists[1..], counts[1..]);
      assert WalkFrom(seen, lists[..0], counts[..0]) == seen;
      forall k | 0 < k < |lists|
        ensures WalkFrom(seen, lists[..k], counts[..k]) == WalkFrom(next, lists[1..][..k - 1], counts[1..][..k - 1])
        ensures lists[k] == lists[1..][k - 1]
      {
        assert lists[..k][1..] == lists[1..][..k - 1] && counts[..k][1..] == counts[1..][..k - 1];
      }
    }
  }

  // ---------------------------------------------------------------- during any requests

  /** The tables a walk meets when `gaps[k]` happens before its k-th request. */
  function DbsSeen(c: Config, gaps: seq<seq<Event>>): seq<Database>
    decreases |gaps|
  {
    if gaps == [] then [] else [Run(c, gaps[0]).db] + DbsSeen(Run(c, gaps[0]), gaps[1..])
  }

  lemma {:induction false} OrdersSeen(c: Config, gaps: seq<seq<Event>>)
    ensures |DbsSeen(c, gaps)| == |gaps|
    ensures Orders(Users, DbsSeen(c, gaps)) == ListsSeen(c, gaps)
    ensures Orders(Groups, DbsSeen(c, gaps)) == GroupListsSeen(c, gaps)
    decreases |gaps|
  {
    if gaps != [] {
      var c1 := Run(c, gaps[0]);
      OrdersSeen(c1, gaps[1..]);
      var dbs := DbsSeen(c, gaps);
      assert dbs == [c1.db] + DbsSeen(c1, gaps[1..]);
      assert Orders(Users, dbs) == [c1.db.users.order] + Orders(Users, DbsSeen(c1, gaps[1..]));
      assert Orders(Groups, dbs) == [c1.db.groups.order] + Orders(Groups, DbsSeen(c1, gaps[1..]));
    }
  }

  /** At each request, what was shown is still there, or nothing is left to show. */
  predicate NothingShownGoesEarly(kind: Kind, dbs: seq<Database>, counts: seq<nat>)
    requires |dbs| == |counts|
  {
    forall k :: 0 <= k < |dbs| ==> SeenStands(WalkedBefore(kind, dbs, counts, k), Order(kind, dbs[k]))
  }

  /** At each request, no row before the page is one that was not shown. */
  ghost predicate NothingPassed(kind: Kind, dbs: seq<Database>, counts: seq<nat>)
    requires |dbs| == |counts|
  {
    forall k :: 0 <= k < |dbs| ==> NonePassed(WalkedBefore(kind, dbs, counts, k), Order(kind, dbs[k]))
  }

  /** What a walk shows that meets these tables: never a row twice; it passes over no row if and only if
      none that it has shown is deleted while one is still to come; if so, and if it is complete, it has
      shown all that are left; and otherwise some row there at one of its requests is never shown. */
  ghost predicate ShowsExactly(kind: Kind, dbs: seq<Database>, counts: seq<nat>)
    requires |dbs| == |counts|
  {
    var walked := Walked(kind, None, [], dbs, counts);
    && NoDup(walked)
    && (NothingPassed(kind, dbs, counts) <==> NothingShownGoesEarly(kind, dbs, counts))
    && (NothingShownGoesEarly(kind, dbs, counts) && dbs != [] && Complete(kind, dbs, counts) ==>
          forall x :: x in Order(kind, dbs[|dbs| - 1]) ==> x in walked)
    && (!NothingShownGoesEarly(kind, dbs, counts) ==>
          exists j, r :: 0 <= j < |dbs| && r in Order(kind, dbs[j]) && r !in walked)
  }

  lemma EachRequest(kind: Kind, dbs: seq<Database>, counts: seq<nat>, k: nat)
    requires |dbs| == |counts| && k < |dbs|
    ensures WalkedBefore(kind, dbs, counts, k) == WalkFrom([], Orders(kind, dbs)[..k], counts[..k])
    ensures Order(kind, dbs[k]) == Orders(kind, dbs)[k]
  {
    WalkedIs(kind, [], dbs[..k], counts[..k]);
    assert Orders(kind, dbs[..k]) == Orders(kind, dbs)[..k];
  }

  lemma EachRequestAgrees(kind: Kind, dbs: seq<Database>, counts: seq<nat>)
    requires |dbs| == |counts|
    ensures NothingShownGoesEarly(kind, dbs, counts) <==> NoSeenRowDeletedEarly([], Orders(kind, dbs), counts)
    ensures NothingPassed(kind, dbs, counts) <==> PassesNone([], Orders(kind, dbs), counts)
  {
    StandsAtEach([], Orders(kind, dbs), counts);
    forall k | 0 <= k < |dbs|
      ensures WalkedBefore(kind, dbs, counts, k) == WalkFrom([], Orders(kind, dbs)[..k], counts[..k])
      ensures Order(kind, dbs[k]) == Orders(kind, dbs)[k]
    {
      EachRequest(kind, dbs, counts, k);
    }
  }

  lemma CompleteIs(kind: Kind, dbs: seq<Database>, counts: seq<nat>)
    requires |dbs| == |counts| && dbs != []
    ensures var lists := Orders(kind, dbs);
      && lists[|lists| - 1] == Order(kind, dbs[|dbs| - 1])
      && (Complete(kind, dbs, counts) <==> Page(lists[|lists| - 1], Pagination(|Walk(lists, counts)| + 1, 1)) == [])
  {
    WalkedIs(kind, [], dbs, counts);
    ListedIsPage(kind, dbs[|dbs| - 1], |Walked(kind, None, [], dbs, counts)| + 1, 1);
  }

  lemma ExactWalkShows(kind: Kind, dbs: seq<Database>, counts: seq<nat>)
    requires |dbs| == |counts| && WalkIsExact(Orders(kind, dbs), counts)
    ensures ShowsExactly(kind, dbs, counts)
  {
    var lists := Orders(kind, dbs);
    WalkedIs(kind, [], dbs, counts);
    EachRequestAgrees(kind, dbs, counts);
    if dbs != [] {
      CompleteIs(kind, dbs, counts);
    }
    if !NothingShownGoesEarly(kind, dbs, counts) {
      var j, r :| 0 <= j < |lists| && r in lists[j] && r !in Walk(lists, counts);
      assert r in Order(kind, dbs[j]);
    }
  }

  /** A walk of the users or of the groups, whatever requests run before it and between its pages. */
  lemma AnyWalk(kind: Kind, db: Database, before: seq<Event>, gaps: seq<seq<Event>>, counts: seq<nat>)
    requires Valid(db) && |counts| == |gaps|
    ensures |DbsSeen(After(db, before), gaps)| == |counts| && ShowsExactly(kind, DbsSeen(After(db, before), gaps), counts)
  {
    OrdersSeen(After(db, before), gaps);
    UserWalk(db, before, gaps, counts);
    GroupWalk(db, before, gaps, counts);
    ExactWalkShows(kind, DbsSeen(After(db, before), gaps), counts);
  }

  predicate Drops(kind: Kind, req: Request) {
    match kind
    case Users => DropsUsers(req)
    case Groups => DropsGroups(req)
  }

  lemma UsersUnderGrowth(db: Database, before: seq<Event>, gaps: seq<seq<Event>>, dbs: seq<Database>, counts: seq<nat>)
    requires Valid(db) && gaps != [] && |counts| == |gaps| == |dbs| && dbs == DbsSeen(After(db, before), gaps)
    requires AllUndisturbed(After(db, before), gaps, DropsUsers) && Complete(Users, dbs, counts)
    ensures var walked := Walked(Users, None, [], dbs, counts); NoDup(walked) && After(db, before).db.users.order <= walked
  {
    OrdersSeen(After(db, before), gaps);
    WalkedIs(Users, [], dbs, counts);
    CompleteIs(Users, dbs, counts);
    UserWalkUnderGrowth(db, before, gaps, counts, 1);
  }

  lemma GroupsUnderGrowth(db: Database, before: seq<Event>, gaps: seq<seq<Event>>, dbs: seq<Database>, counts: seq<nat>)
    requires Valid(db) && gaps != [] && |counts| == |gaps| == |dbs| && dbs == DbsSeen(After(db, before), gaps)
    requires AllUndisturbed(After(db, before), gaps, DropsGroups) && Complete(Groups, dbs, counts)
    ensures var walked := Walked(Groups, None, [], dbs, counts); NoDup(walked) && After(db, before).db.groups.order <= walked
  {
    OrdersSeen(After(db, before), gaps);
    WalkedIs(Groups, [], dbs, counts);
    CompleteIs(Groups, dbs, counts);
    GroupWalkUnderGrowth(db, before, gaps, counts, 1);
  }

  /** While no deletion or wipe of the kind is in flight or arrives, a completed walk shows every row there
      at the start exactly once and in creation order, and possibly later ones after them. */
  lemma WalkUnderGrowth(kind: Kind, db: Database, before: seq<Event>, gaps: seq<seq<Event>>, counts: seq<nat>)
    requires Valid(db) && gaps != [] && |counts| == |gaps|
    requires AllUndisturbed(After(db, before), gaps, req => Drops(kind, req))
    requires |DbsSeen(After(db, before), gaps)| == |counts| && Complete(kind, DbsSeen(After(db, before), gaps), counts)
    ensures var walked := Walked(kind, None, [], DbsSeen(After(db, before), gaps), counts);
            NoDup(walked) && Order(kind, After(db, before).db) <= walked
  {
    var dbs := DbsSeen(After(db, before), gaps);
    match kind
    case Users =>
      UndisturbedKind(After(db, before), gaps, Users, DropsUsers);
      UsersUnderGrowth(db, before, gaps, dbs, counts);
    case Groups =>
      UndisturbedKind(After(db, before), gaps, Groups, DropsGroups);
      GroupsUnderGrowth(db, before, gaps, dbs, counts);
  }

  lemma UndisturbedKind(c: Config, gaps: seq<seq<Event>>, kind: Kind, drops: Request -> bool)
    requires AllUndisturbed(c, gaps, req => Drops(kind, req)) && forall req :: drops(req) == Drops(kind, req)
    ensures AllUndisturbed(c, gaps, drops)
  {
  }

  /** In a run: a client has been shown the first `k` users when the user at position `d` is deleted. If it
      was one of those, the next user is never shown, whatever follows; otherwise nothing shown is gone. */
  lemma DeletionSkipsUser(c: Config, l: Ledger, tid: Tid, k: nat, d: nat, i: Id, j: Id,
                          gaps: seq<seq<Event>>, counts: seq<nat>)
    requires Agrees(c, l) && k < |c.db.users.order| && d < |c.db.users.order| && |counts| == |gaps| + 1
    requires tid in c.threads && c.threads[tid] == Running(RemoveUser(c.db.users.order[d]), Check)
    requires i !in c.issued && j !in c.issued + {i}
    ensures var list := c.db.users.order;
            var dbs := DbsSeen(c, [[Advance(tid, i), Advance(tid, j)]] + gaps);
      && |dbs| == |counts|
      && (d < k ==> list[k] in dbs[0].users.order && list[k] !in Walked(Users, None, list[..k], dbs, counts))
      && (d >= k ==> list[..k] <= dbs[0].users.order)
  {
    DeletionSkipsRow(c, l, tid, k, d, i, j, gaps, counts);
    var all := [[Advance(tid, i), Advance(tid, j)]] + gaps;
    var dbs := DbsSeen(c, all);
    OrdersSeen(c, all);
    WalkedIs(Users, c.db.users.order[..k], dbs, counts);
    assert Orders(Users, dbs)[0] == dbs[0].users.order;
  }

  // ---------------------------------------------------------------- with a filter, nothing else running

  function Wanted(kind: Kind, db: Database, filter: Option<string>): Id -> bool {
    match kind
    case Users => WantedUser(db, ParseEqFilter(filter))
    case Groups => WantedGroup(db, ParseEqFilter(filter))
  }

  function Matching(kind: Kind, db: Database, filter: Option<string>): seq<Id> {
    match kind
    case Users => MatchingUsers(db, ParseEqFilter(filter))
    case Groups => MatchingGroups(db, ParseEqFilter(filter))
  }

  lemma {:induction false} FilteredIs(kind: Kind, db: Database, filter: Option<string>, seen: seq<Id>, counts: seq<nat>)
    ensures Walked(kind, filter, seen, seq(|counts|, i => db), counts)
            == WalkFrom(seen, seq(|counts|, i => Matching(kind, db, filter)), counts)
    decreases |counts|
  {
    if counts != [] {
      var all := Matching(kind, db, filter);
      assert Listed(kind, db, filter, |seen| + 1, counts[0]).ids == Page(all, Pagination(|seen| + 1, counts[0]));
      assert seq(|counts|, i => db)[1..] == seq(|counts[1..]|, i => db);
      assert seq(|counts|, i => all)[1..] == seq(|counts[1..]|, i => all);
      FilteredIs(kind, db, filter, NextSeen(seen, all, counts[0]), counts[1..]);
    }
  }

  lemma MatchingIs(kind: Kind, db: Database, filter: Option<string>)
    ensures var all, order, want := Matching(kind, db, filter), Order(kind, db), Wanted(kind, db, filter);
      && |all| == Before(order, want, |order|)
      && forall i :: 0 <= i < |all| ==> Ranked(order, want, all[i], i)
  {
    var all := Matching(kind, db, filter);
    var p := Pagination(1, |all|);
    UserListing(db, ParseEqFilter(filter), p);
    GroupListing(db, ParseEqFilter(filter), p);
    assert Page(all, p) == all;
  }

  /** Filtered or not, as many requests for a row or more as there are matches show, on tables that do not
      change, exactly the matching rows, each once and by creation. */
  lemma FilteredWalk(kind: Kind, db: Database, filter: Option<string>, counts: seq<nat>)
    requires |counts| >= Listed(kind, db, filter, 1, 1).totalResults
    requires forall k :: 0 <= k < |counts| ==> counts[k] > 0
    ensures var walked, order, want :=
              Walked(kind, filter, [], seq(|counts|, i => db), counts), Order(kind, db), Wanted(kind, db, filter);
      && |walked| == Before(order, want, |order|)
      && forall i :: 0 <= i < |walked| ==> Ranked(order, want, walked[i], i)
  {
    FilteredIs(kind, db, filter, [], counts);
    WalkOfUnchangingList([], Matching(kind, db, filter), counts);
    MatchingIs(kind, db, filter);
  }
}

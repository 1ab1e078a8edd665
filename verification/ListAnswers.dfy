/** The answers to GET /Users and GET /Groups: a page of representations with its counts. */
module ListAnswers {
  import opened Prelude
  import opened Tables
  import opened Resources
  import opened Api
  import opened FilterUtil
  import opened Listing
  import opened Bodies

  datatype ListAnswer<T> = ListAnswer(totalResults: nat, startIndex: int, itemsPerPage: nat, resources: seq<T>)

  function UserResources(users: map<Id, User>, ids: seq<Id>): seq<UserResource>
    requires forall id :: id in ids ==> id in users
  {
    seq(|ids|, i requires 0 <= i < |ids| => ToScimUser(ids[i], users[ids[i]]))
  }

  function GroupResources(db: Database, ids: seq<Id>): seq<GroupResource>
    requires forall id :: id in ids ==> id in db.groups.rows
  {
    seq(|ids|, i requires 0 <= i < |ids| => ToScimGroup(db, ids[i]))
  }

  /** UsersController.list */
  function AnswerUsers(db: Database, filter: Option<string>, startIndex: Option<int>, count: Option<int>): ListAnswer<UserResource>
    requires Valid(db)
  {
    var p := ParsePagination(startIndex, count);
    var found := ListUsers(db, ParseEqFilter(filter), p);
    ListAnswer(found.totalResults, p.startIndex, |found.ids|, UserResources(db.users.rows, found.ids))
  }

  /** GroupsController.list */
  function AnswerGroups(db: Database, filter: Option<string>, startIndex: Option<int>, count: Option<int>): ListAnswer<GroupResource>
    requires Valid(db)
  {
    var p := ParsePagination(startIndex, count);
    var found := ListGroups(db, ParseEqFilter(filter), p);
    ListAnswer(found.totalResults, p.startIndex, |found.ids|, GroupResources(db, found.ids))
  }

  /** The parameters as they are used. */
  predicate Bounds(startIndex: Option<int>, count: Option<int>, start: int, limit: int) {
    && start == (if startIndex.Some? && startIndex.value > 0 then startIndex.value else 1)
    && limit == (if count.Some? && count.value >= 0 then count.value else 100)
  }

  /** A listing of users answers the representations of the wanted users on the page, in order. */
  lemma UsersShown(db: Database, filter: Option<string>, startIndex: Option<int>, count: Option<int>, start: int, limit: int)
    requires Valid(db) && Bounds(startIndex, count, start, limit)
    ensures var answer, want := AnswerUsers(db, filter, startIndex, count), WantedUser(db, ParseEqFilter(filter));
            var total := Before(db.users.order, want, |db.users.order|);
      && answer.totalResults == total
      && answer.startIndex == start
      && answer.itemsPerPage == |answer.resources| == Shown(total - (start - 1), limit)
      && forall i :: 0 <= i < |answer.resources| ==>
           var id := answer.resources[i].id;
           Ranked(db.users.order, want, id, start - 1 + i) && id in db.users.rows
           && ShowsUser(UserBody(answer.resources[i]), id, db.users.rows[id])
  {
    UserListing(db, ParseEqFilter(filter), ParsePagination(startIndex, count));
  }

  /** Likewise for groups. */
  lemma GroupsShown(db: Database, filter: Option<string>, startIndex: Option<int>, count: Option<int>, start: int, limit: int)
    requires Valid(db) && Bounds(startIndex, count, start, limit)
    ensures var answer, want := AnswerGroups(db, filter, startIndex, count), WantedGroup(db, ParseEqFilter(filter));
            var total := Before(db.groups.order, want, |db.groups.order|);
      && answer.totalResults == total
      && answer.startIndex == start
      && answer.itemsPerPage == |answer.resources| == Shown(total - (start - 1), limit)
      && forall i :: 0 <= i < |answer.resources| ==>
           var id := answer.resources[i].id;
           Ranked(db.groups.order, want, id, start - 1 + i) && ShowsGroup(db, GroupBody(answer.resources[i]), id)
  {
    GroupListing(db, ParseEqFilter(filter), ParsePagination(startIndex, count));
    var answer := AnswerGroups(db, filter, startIndex, count);
    forall i | 0 <= i < |answer.resources| ensures ShowsGroup(db, GroupBody(answer.resources[i]), answer.resources[i].id) {
      GroupIsShown(db, 200, answer.resources[i].id);
    }
  }
}

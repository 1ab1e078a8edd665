/** The list endpoints: filter and page. */
module Listing {
  import opened Prelude
  import opened Tables
  import opened Resources
  import opened FilterUtil
  import opened Api
  import SerialCalls

  // ---------------------------------------------------------------- one page

  function Min(a: int, b: int): int {
    if a < b then a else b
  }

  /** skip: Math.max(startIndex - 1, 0), take: count */
  function Page(s: seq<Id>, p: Pagination): seq<Id> {
    var skip := Min(if p.startIndex - 1 > 0 then p.startIndex - 1 else 0, |s|);
    s[skip..Min(skip + (if p.count > 0 then p.count else 0), |s|)]
  }

  /** What `list` returns: the count of all matches, and the ids of one page of them by creation. */
  datatype ListResult = ListResult(totalResults: nat, ids: seq<Id>)

  function UserNamed(db: Database, name: string): Id -> bool {
    id => id in db.users.rows && db.users.rows[id].userName == name
  }

  function GroupNamed(db: Database, name: string): Id -> bool {
    id => id in db.groups.rows && db.groups.rows[id].displayName == name
  }

  function MatchingUsers(db: Database, filter: Option<ParsedFilter>): seq<Id> {
    if filter.Some? && filter.value.attribute == "userName" then
      Keep(db.users.order, UserNamed(db, filter.value.value))
    else db.users.order
  }

  function ListUsers(db: Database, filter: Option<ParsedFilter>, p: Pagination): ListResult {
    var all := MatchingUsers(db, filter);
    ListResult(|all|, Page(all, p))
  }

  function MatchingGroups(db: Database, filter: Option<ParsedFilter>): seq<Id> {
    if filter.Some? && filter.value.attribute == "displayName" then
      Keep(db.groups.order, GroupNamed(db, filter.value.value))
    else db.groups.order
  }

  function ListGroups(db: Database, filter: Option<ParsedFilter>, p: Pagination): ListResult {
    var all := MatchingGroups(db, filter);
    ListResult(|all|, Page(all, p))
  }

  // ---------------------------------------------------------------- what a listing answers

  /** How many of `left` rows a page of `count` shows. */
  function Shown(left: int, count: int): int {
    if left <= 0 then 0 else if left < count then left else count
  }

  /** `id` is wanted, and stands after exactly `rank` wanted ones. */
  ghost predicate Ranked(order: seq<Id>, want: Id -> bool, id: Id, rank: int) {
    exists k :: 0 <= k < |order| && order[k] == id && want(id) && Before(order, want, k) == rank
  }

  /** A page of the wanted ids in their order: how many there are in all, how many are shown, and which. */
  ghost predicate IsPage(order: seq<Id>, want: Id -> bool, startIndex: int, count: int, found: ListResult) {
    var total := Before(order, want, |order|);
    && found.totalResults == total
    && |found.ids| == Shown(total - (startIndex - 1), count)
    && forall i :: 0 <= i < |found.ids| ==> Ranked(order, want, found.ids[i], startIndex - 1 + i)
  }

  lemma KeptStands(order: seq<Id>, want: Id -> bool, j: nat)
    requires j < |Keep(order, want)|
    ensures Ranked(order, want, Keep(order, want)[j], j)
  {
    var k := KeptAt(order, want, j);
    BeforeIsKept(order, want, k);
  }

  lemma PageOfKept(order: seq<Id>, want: Id -> bool, p: Pagination)
    requires p.startIndex >= 1 && p.count >= 0
    ensures IsPage(order, want, p.startIndex, p.count, ListResult(|Keep(order, want)|, Page(Keep(order, want), p)))
  {
    var all := Keep(order, want);
    PageIsSlice(all, p);
    BeforeIsKept(order, want, |order|);
    assert order[..|order|] == order;
    forall i | 0 <= i < |Page(all, p)| ensures Ranked(order, want, Page(all, p)[i], p.startIndex - 1 + i) {
      KeptStands(order, want, p.startIndex - 1 + i);
    }
  }

  /** The users a filter asks for: by `userName`, or else all. */
  function WantedUser(db: Database, filter: Option<ParsedFilter>): Id -> bool {
    id => filter.Some? && filter.value.attribute == "userName" ==>
            id in db.users.rows && db.users.rows[id].userName == filter.value.value
  }

  function WantedGroup(db: Database, filter: Option<ParsedFilter>): Id -> bool {
    id => filter.Some? && filter.value.attribute == "displayName" ==>
            id in db.groups.rows && db.groups.rows[id].displayName == filter.value.value
  }

  /** A listing of users is a page of the wanted ones by creation, with the count of all of them. */
  lemma UserListing(db: Database, filter: Option<ParsedFilter>, p: Pagination)
    requires p.startIndex >= 1 && p.count >= 0
    ensures IsPage(db.users.order, WantedUser(db, filter), p.startIndex, p.count, ListUsers(db, filter, p))
  {
    var want := WantedUser(db, filter);
    PageOfKept(db.users.order, want, p);
    if filter.Some? && filter.value.attribute == "userName" {
      KeepSame(db.users.order, want, UserNamed(db, filter.value.value));
    } else {
      KeepAll(db.users.order, want);
    }
  }

  lemma GroupListing(db: Database, filter: Option<ParsedFilter>, p: Pagination)
    requires p.startIndex >= 1 && p.count >= 0
    ensures IsPage(db.groups.order, WantedGroup(db, filter), p.startIndex, p.count, ListGroups(db, filter, p))
  {
    var want := WantedGroup(db, filter);
    PageOfKept(db.groups.order, want, p);
    if filter.Some? && filter.value.attribute == "displayName" {
      KeepSame(db.groups.order, want, GroupNamed(db, filter.value.value));
    } else {
      KeepAll(db.groups.order, want);
    }
  }

  /** The rows from `startIndex` on, at most `count` of them. */
  ghost predicate IsSlice(order: seq<Id>, startIndex: int, count: int, found: ListResult) {
    && found.totalResults == |order|
    && |found.ids| == Shown(|order| - (startIndex - 1), count)
    && forall i :: 0 <= i < |found.ids| ==> 0 <= startIndex - 1 + i < |order| && found.ids[i] == order[startIndex - 1 + i]
  }

  /** Without a filter, or with one on another attribute, a listing shows the rows from `startIndex` on. */
  lemma WholeListing(db: Database, filter: Option<ParsedFilter>, p: Pagination)
    requires p.startIndex >= 1 && p.count >= 0
    ensures filter.None? || filter.value.attribute != "userName" ==>
              IsSlice(db.users.order, p.startIndex, p.count, ListUsers(db, filter, p))
    ensures filter.None? || filter.value.attribute != "displayName" ==>
              IsSlice(db.groups.order, p.startIndex, p.count, ListGroups(db, filter, p))
  {
    PageIsSlice(db.users.order, p);
    PageIsSlice(db.groups.order, p);
  }

  lemma PageIsSlice(order: seq<Id>, p: Pagination)
    requires p.startIndex >= 1 && p.count >= 0
    ensures IsSlice(order, p.startIndex, p.count, ListResult(|order|, Page(order, p)))
  {
  }

  /** The request without parameters: the first hundred rows. */
  lemma PlainListing(db: Database)
    ensures IsSlice(db.users.order, 1, 100, ListUsers(db, ParseEqFilter(None), ParsePagination(None, None)))
    ensures IsSlice(db.groups.order, 1, 100, ListGroups(db, ParseEqFilter(None), ParsePagination(None, None)))
  {
    WholeListing(db, None, ParsePagination(None, None));
  }

  // ---------------------------------------------------------------- lookup agrees with create

  lemma TwoDiffer(s: seq<Id>)
    requires NoDup(s) && |s| > 1
    ensures exists a, b :: a in s && b in s && a != b
  {
    assert s[0] in s && s[1] in s;
  }

  lemma FilterByName(attribute: string, name: string)
    requires IsWordString(attribute) && OneLine(name)
    ensures ParseEqFilter(Some(PrintFilter(attribute, name))) == Some(ParsedFilter(attribute, name))
  {
    PrintParse(attribute, name);
  }

  /** The first page of the ids that `p` keeps, when it keeps at most one. */
  lemma FirstPageOfMatches(order: seq<Id>, p: Id -> bool, count: int)
    requires NoDup(order) && count >= 1
    requires forall a, b :: a in order && p(a) && b in order && p(b) ==> a == b
    ensures var all := Keep(order, p);
            |all| <= 1 && Page(all, Pagination(1, count)) == all
            && (|all| == 1 <==> exists id :: id in order && p(id))
  {
    var all := Keep(order, p);
    KeepNoDup(order, p);
    if |all| > 1 { TwoDiffer(all); }
    if |all| == 1 {
      assert all[0] in all;
    }
    if id :| id in order && p(id) {
      assert id in all;
    }
  }

  lemma GroupWithName(db: Database, name: string)
    requires TableOk(db.groups)
    ensures DisplayNameTaken(db, name) <==> exists id :: id in db.groups.order && GroupNamed(db, name)(id)
  {
  }

  lemma UserWithName(db: Database, name: string)
    requires TableOk(db.users)
    ensures UserNameTaken(db, name) <==> exists id :: id in db.users.order && UserNamed(db, name)(id)
  {
  }

  lemma UsersNamed(db: Database, name: string, count: int)
    requires Valid(db) && OneLine(name) && count >= 1
    ensures var found := ListUsers(db, ParseEqFilter(Some(PrintFilter("userName", name))), Pagination(1, count));
      && found.totalResults == |found.ids| <= 1
      && (forall id :: id in found.ids <==> id in db.users.rows && db.users.rows[id].userName == name)
      && (|found.ids| == 1 <==> UserNameTaken(db, name))
  {
    FilterByName("userName", name);
    FirstPageOfMatches(db.users.order, UserNamed(db, name), count);
    UserWithName(db, name);
  }

  /** Looking a name up before creating it: the filtered listing shows one user exactly when creating a
      user of that name would answer 409, and never more than one. */
  lemma UserLookupAgreesWithCreate(db: Database, dto: UserDto, digest: string, newId: Id, count: int)
    requires Valid(db) && OneLine(dto.userName) && count >= 1
    ensures var found := ListUsers(db, ParseEqFilter(Some(PrintFilter("userName", dto.userName))), Pagination(1, count));
      && found.totalResults == |found.ids| <= 1
      && (forall id :: id in found.ids <==> id in db.users.rows && db.users.rows[id].userName == dto.userName)
      && (|found.ids| == 1 <==> Serial(db, newId, CreateUser(dto, digest)).1.status == 409)
  {
    UsersNamed(db, dto.userName, count);
  }

  /** A creation whose listed members repeat nobody conflicts on the name and on nothing else. */
  lemma CreateGroupConflicts(db: Database, dto: GroupDto, newId: Id)
    ensures DisplayNameTaken(db, dto.displayName) ==> Serial(db, newId, CreateGroup(dto)).1 == NAME_CONFLICT
    ensures NoDup(MemberList(dto)) && !DisplayNameTaken(db, dto.displayName) ==>
              Serial(db, newId, CreateGroup(dto)).1.status != 409
  {
    SerialCalls.MemberFaultIs(db.users.rows, MemberList(dto), 0);
  }

  lemma GroupsNamed(db: Database, name: string, count: int)
    requires Valid(db) && OneLine(name) && count >= 1
    ensures var found := ListGroups(db, ParseEqFilter(Some(PrintFilter("displayName", name))), Pagination(1, count));
      && found.totalResults == |found.ids| <= 1
      && (forall id :: id in found.ids <==> id in db.groups.rows && db.groups.rows[id].displayName == name)
      && (|found.ids| == 1 <==> DisplayNameTaken(db, name))
  {
    FilterByName("displayName", name);
    FirstPageOfMatches(db.groups.order, GroupNamed(db, name), count);
    GroupWithName(db, name);
  }

  /** Likewise for groups: a creation whose listed members repeat nobody conflicts only on the name. */
  lemma GroupLookupAgreesWithCreate(db: Database, dto: GroupDto, newId: Id, count: int)
    requires Valid(db) && OneLine(dto.displayName) && count >= 1
    ensures var found := ListGroups(db, ParseEqFilter(Some(PrintFilter("displayName", dto.displayName))), Pagination(1, count));
      && found.totalResults == |found.ids| <= 1
      && (forall id :: id in found.ids <==> id in db.groups.rows && db.groups.rows[id].displayName == dto.displayName)
      && (|found.ids| == 1 ==> Serial(db, newId, CreateGroup(dto)).1 == NAME_CONFLICT)
      && (NoDup(MemberList(dto)) ==> (|found.ids| == 1 <==> Serial(db, newId, CreateGroup(dto)).1.status == 409))
  {
    GroupsNamed(db, dto.displayName, count);
    CreateGroupConflicts(db, dto, newId);
  }
}

/** extractMemberIdFromFilterPath of src/scim/groups/apply-group-patch.ts: an unanchored search for
    `members[value eq "id"]`, the keyword letters in any case. */
module MemberPath {
  import opened Prelude

  const KEYWORD := "members[value eq \""
  const CLOSING := "\"]"

  predicate KeywordAt(path: string, i: nat) {
    i + |KEYWORD| <= |path| && forall k :: 0 <= k < |KEYWORD| ==> Lower(path[i + k]) == KEYWORD[k]
  }

  /** The end of the run of characters other than a quote that starts at `i`. */
  function QuoteFreeEnd(path: string, i: nat): (e: nat)
    requires i <= |path|
    ensures i <= e <= |path|
    ensures '"' !in path[i..e]
    ensures e < |path| ==> path[e] == '"'
    decreases |path| - i
  {
    if i == |path| || path[i] == '"' then i
    else
      var e := QuoteFreeEnd(path, i + 1);
      assert path[i..e] == [path[i]] + path[i + 1..e];
      e
  }

  function MatchAt(path: string, i: nat): Option<string> {
    if !KeywordAt(path, i) then None
    else
      var start := i + |KEYWORD|;
      var end := QuoteFreeEnd(path, start);
      if start < end && end + 2 <= |path| && path[end..end + 2] == CLOSING then Some(path[start..end]) else None
  }

  function SearchFrom(path: string, i: nat): Option<string>
    requires i <= |path|
    decreases |path| - i
  {
    if MatchAt(path, i).Some? then MatchAt(path, i)
    else if i == |path| then None
    else SearchFrom(path, i + 1)
  }

  function Extract(path: string): Option<string> {
    SearchFrom(path, 0)
  }

  function Print(id: string): string {
    KEYWORD + id + CLOSING
  }

  predicate IsMemberId(id: string) {
    id != "" && '"' !in id
  }

  /** The grammar: an occurrence of the pattern at position `i`, naming `id`. */
  predicate Occurs(path: string, i: nat, id: string) {
    && IsMemberId(id)
    && i + |KEYWORD| + |id| + 2 <= |path|
    && KeywordAt(path, i)
    && path[i + |KEYWORD|..i + |KEYWORD| + |id|] == id
    && path[i + |KEYWORD| + |id|..i + |KEYWORD| + |id| + 2] == CLOSING
  }

  ghost predicate Leftmost(path: string, i: nat, id: string) {
    Occurs(path, i, id) && forall j: nat, other :: j < i ==> !Occurs(path, j, other)
  }

  lemma MatchAtIsOccurs(path: string, i: nat, id: string)
    ensures MatchAt(path, i) == Some(id) <==> Occurs(path, i, id)
  {
    if KeywordAt(path, i) {
      var start := i + |KEYWORD|;
      var end := QuoteFreeEnd(path, start);
      if Occurs(path, i, id) {
        var stop := start + |id|;
        assert path[stop] == path[stop..stop + 2][0] == '"';
        assert forall k :: start <= k < end ==> path[k] in path[start..end];
        assert forall k :: start <= k < stop ==> path[k] == id[k - start] && path[k] in id;
        assert stop == end;
      }
    }
  }

  /** The first occurrence at or after `i`. */
  ghost predicate First(path: string, i: nat, k: nat, id: string) {
    i <= k && Occurs(path, k, id) && forall j: nat, other :: i <= j < k ==> !Occurs(path, j, other)
  }

  lemma NoMatchNoOccurrence(path: string, i: nat)
    ensures MatchAt(path, i).None? <==> forall id :: !Occurs(path, i, id)
  {
    forall id ensures MatchAt(path, i) == Some(id) <==> Occurs(path, i, id) {
      MatchAtIsOccurs(path, i, id);
    }
    if MatchAt(path, i).Some? {
      assert Occurs(path, i, MatchAt(path, i).value);
    }
  }

  lemma {:induction false} SearchFinds(path: string, i: nat) returns (k: nat)
    requires i <= |path| && SearchFrom(path, i).Some?
    ensures First(path, i, k, SearchFrom(path, i).value)
    decreases |path| - i
  {
    if MatchAt(path, i).Some? {
      MatchAtIsOccurs(path, i, MatchAt(path, i).value);
      k := i;
    } else {
      NoMatchNoOccurrence(path, i);
      k := SearchFinds(path, i + 1);
    }
  }

  lemma {:induction false} SearchFails(path: string, i: nat)
    requires i <= |path| && SearchFrom(path, i).None?
    ensures forall k: nat, id :: i <= k ==> !Occurs(path, k, id)
    decreases |path| - i
  {
    NoMatchNoOccurrence(path, i);
    if i < |path| {
      SearchFails(path, i + 1);
    }
  }

  /** There is one first occurrence, and it names one id. */
  lemma FirstUnique(path: string, i: nat, k: nat, id: string, k': nat, id': string)
    requires First(path, i, k, id) && First(path, i, k', id')
    ensures k == k' && id == id'
  {
    MatchAtIsOccurs(path, k, id);
    MatchAtIsOccurs(path, k, id');
  }

  /** The result is the id of the leftmost occurrence. */
  lemma ExtractIsLeftmost(path: string, id: string)
    ensures Extract(path) == Some(id) <==> exists i: nat :: Leftmost(path, i, id)
  {
    if Extract(path).Some? {
      var k := SearchFinds(path, 0);
      assert Leftmost(path, k, Extract(path).value);
      if i: nat :| Leftmost(path, i, id) {
        assert First(path, 0, i, id);
        FirstUnique(path, 0, k, Extract(path).value, i, id);
      }
    } else {
      SearchFails(path, 0);
    }
  }

  /** There is no result exactly when the pattern occurs nowhere. */
  lemma ExtractFailsWhenAbsent(path: string)
    ensures Extract(path).None? <==> forall i: nat, id :: !Occurs(path, i, id)
  {
    if Extract(path).Some? {
      var k := SearchFinds(path, 0);
    } else {
      SearchFails(path, 0);
    }
  }

  /** A printed path gives its id back exactly for the ids the pattern can name. */
  lemma PrintExtract(id: string)
    ensures Extract(Print(id)) == Some(id) <==> IsMemberId(id)
  {
    var path := Print(id);
    if IsMemberId(id) {
      assert forall k :: 0 <= k < |KEYWORD| ==> path[k] == KEYWORD[k] == Lower(KEYWORD[k]);
      assert path[|KEYWORD|..|KEYWORD| + |id|] == id;
      assert path[|KEYWORD| + |id|..|KEYWORD| + |id| + 2] == CLOSING;
      assert Leftmost(path, 0, id);
    }
    ExtractIsLeftmost(path, id);
  }
}

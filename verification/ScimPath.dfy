/** Attribute paths (section 3.5.2 of RFC 7644) and the reading of patch values, independent of the source. */
module ScimPath {
  import opened Prelude
  import opened Json
  import opened Tables

  // ---------------------------------------------------------------- names and paths

  /** Attribute names are case-insensitive (section 2.1 of RFC 7643). */
  predicate SameName(a: string, b: string) {
    |a| == |b| && forall i :: 0 <= i < |a| ==> Lower(a[i]) == Lower(b[i])
  }

  const VALUE_FILTER := "value eq \""

  predicate IsNameChar(c: char) {
    'a' <= c <= 'z' || 'A' <= c <= 'Z' || '0' <= c <= '9' || c == '-' || c == '_' || c == '$'
  }

  predicate IsName(s: string) {
    s != "" && forall i :: 0 <= i < |s| ==> IsNameChar(s[i])
  }

  /** What a path denotes, as far as one attribute is concerned. */
  datatype Target =
    | Whole                                      // emails
    | Part(sub: string)                          // emails.value
    | Selected(filter: string)                   // emails[primary eq true]
    | SelectedPart(filter: string, sub: string)  // emails[primary eq true].value
    | Elsewhere

  /** An attribute name may be written with its schema in front. */
  function PrefixLength(path: string, schema: string): (n: nat)
    ensures n <= |path|
  {
    if |schema| <= |path| && SameName(path[..|schema|], schema) then |schema| else 0
  }

  /** The position after the last closing bracket, or 0. */
  function BracketEnd(s: string): (n: nat)
    ensures n <= |s|
    ensures n > 0 ==> s[n - 1] == ']'
    ensures forall i :: n <= i < |s| ==> s[i] != ']'
  {
    if s == "" then 0
    else if s[|s| - 1] == ']' then |s|
    else BracketEnd(s[..|s| - 1])
  }

  /** The target named by what follows the attribute name. */
  function SuffixTarget(rest: string): Target {
    var n := BracketEnd(rest);
    if rest == "" then Whole
    else if rest[0] == '.' && IsName(rest[1..]) then Part(rest[1..])
    else if rest[0] != '[' || n < 2 then Elsewhere
    else if n == |rest| then Selected(rest[1..n - 1])
    else if rest[n] == '.' && IsName(rest[n + 1..]) then SelectedPart(rest[1..n - 1], rest[n + 1..])
    else Elsewhere
  }

  lemma BracketEndIs(s: string, n: nat)
    requires 0 < n <= |s| && s[n - 1] == ']'
    requires forall i :: n <= i < |s| ==> s[i] != ']'
    ensures BracketEnd(s) == n
  {
    var e := BracketEnd(s);
    assert e >= n;
  }

  /** The text of a bracket, and what may follow it. */
  lemma SelectedSuffix(rest: string, f: string, more: string)
    requires rest == "[" + f + "]" + more && ']' !in more
    ensures more == "" ==> SuffixTarget(rest) == Selected(f)
    ensures more != "" && more[0] == '.' && IsName(more[1..]) ==> SuffixTarget(rest) == SelectedPart(f, more[1..])
  {
    var n := |f| + 2;
    assert rest[0] == '[' && rest[n - 1] == ']' && rest[1..n - 1] == f && rest[n..] == more;
    forall i | n <= i < |rest| ensures rest[i] != ']' {
      assert rest[i] == more[i - n];
    }
    BracketEndIs(rest, n);
    if more != "" {
      assert rest[n] == more[0] && rest[n + 1..] == more[1..];
    }
  }

  function TargetIn(path: string, schema: string, attribute: string): Target {
    var name := path[PrefixLength(path, schema)..];
    if |name| < |attribute| || !SameName(name[..|attribute|], attribute) then Elsewhere
    else SuffixTarget(name[|attribute|..])
  }

  /** The id of a filter `value eq "id"`; what any other filter selects is left open. */
  function ValueFilter(f: string): Option<Id> {
    var n := |VALUE_FILTER|;
    if n + 1 < |f| && SameName(f[..n], VALUE_FILTER) && f[|f| - 1] == '"'
       && (forall i :: n <= i < |f| - 1 ==> f[i] != '"' && f[i] != '\\')
    then Some(f[n..|f| - 1])
    else None
  }

  // ---------------------------------------------------------------- values

  datatype Lookup = NoKey | OneKey(value: Json) | ManyKeys

  /** A key spelled exactly, or else the only one that differs in case. */
  ghost function Find(v: Json, name: string): Lookup
    requires v.JObj?
  {
    var keys := set k | k in v.fields && SameName(k, name);
    if name in v.fields then OneKey(v.fields[name])
    else if keys == {} then NoKey
    else if exists k :: keys == {k} then
      var k :| keys == {k};
      assert k in keys;
      OneKey(v.fields[k])
    else ManyKeys
  }

  datatype Entry = Names(id: Id) | NamesNobody | BadEntry

  /** An entry of a multi-valued attribute is an object whose `value`, if there is one, is a string. */
  ghost function ReadEntry(item: Json): Entry {
    if !item.JObj? then BadEntry
    else match Find(item, "value")
      case NoKey => NamesNobody
      case ManyKeys => BadEntry
      case OneKey(JNull) => NamesNobody
      case OneKey(JStr(s)) => if s == "" then NamesNobody else Names(s)
      case OneKey(_) => BadEntry
  }
}

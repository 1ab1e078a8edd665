/** JSON values as they sit in a patch operation, with the JavaScript coercions the compilers use. */
module Json {
  import opened Prelude

  /** A number is given by its String() form and whether it is zero. */
  datatype Json =
    | JNull
    | JBool(b: bool)
    | JNum(text: string, zero: bool)
    | JStr(s: string)
    | JArr(items: seq<Json>)
    | JObj(fields: map<string, Json>)

  /** A property that may be absent, which JavaScript reads as `undefined`. */
  type Value = Option<Json>

  /** `v.name` for a value that is not null or undefined; only objects have properties of their own. */
  function Property(v: Json, name: string): Value {
    if v.JObj? && name in v.fields then Some(v.fields[name]) else None
  }

  /** Boolean(v) */
  predicate Truthy(v: Value) {
    match v
    case None => false
    case Some(JNull) => false
    case Some(JBool(b)) => b
    case Some(JNum(_, zero)) => !zero
    case Some(JStr(s)) => s != ""
    case Some(JArr(_)) => true
    case Some(JObj(_)) => true
  }

  /** String(v), or None when it throws: an object with its own `toString` cannot be converted. */
  function Text(v: Value): Option<string> {
    match v
    case None => Some("undefined")
    case Some(j) => JsonText(j)
  }

  function JsonText(j: Json): Option<string> {
    match j
    case JNull => Some("null")
    case JBool(b) => Some(if b then "true" else "false")
    case JNum(text, _) => Some(text)
    case JStr(s) => Some(s)
    case JArr(items) => JoinText(items)
    case JObj(fields) => if "toString" in fields then None else Some("[object Object]")
  }

  /** Array.prototype.join: null entries print as nothing. */
  function JoinText(items: seq<Json>): Option<string> {
    if items == [] then Some("")
    else
      var head := if items[0].JNull? then Some("") else JsonText(items[0]);
      var rest := JoinText(items[1..]);
      if head.None? || rest.None? then None
      else if |items| == 1 then head
      else Some(head.value + "," + rest.value)
  }

  /** What String() makes of a value that is no array. */
  lemma TextForms(s: string, zero: bool, fields: map<string, Json>)
    ensures Text(None) == Some("undefined") && Text(Some(JNull)) == Some("null")
    ensures Text(Some(JBool(true))) == Some("true") && Text(Some(JBool(false))) == Some("false")
    ensures Text(Some(JNum(s, zero))) == Some(s) && Text(Some(JStr(s))) == Some(s)
    ensures "toString" !in fields ==> Text(Some(JObj(fields))) == Some("[object Object]")
    ensures "toString" in fields ==> Text(Some(JObj(fields))) == None
  {
  }

  /** An array prints as its items with commas between, and nothing for a null one; it cannot be printed when
      some item cannot. */
  lemma JoinedItems(item: Json, rest: seq<Json>)
    ensures Text(Some(JArr([]))) == Some("")
    ensures Text(Some(JArr([item]))) == if item.JNull? then Some("") else Text(Some(item))
    ensures rest != [] ==>
              var first, others := Text(Some(JArr([item]))), Text(Some(JArr(rest)));
              Text(Some(JArr([item] + rest))) ==
              if first.Some? && others.Some? then Some(first.value + "," + others.value) else None
  {
    assert [item][1..] == [] && ([item] + rest)[1..] == rest;
    var empty: seq<Json> := [];
    assert JoinText(empty) == Some("");
    var head := if item.JNull? then Some("") else JsonText(item);
    assert JoinText([item]) == head;
    assert JsonText(JArr([item])) == JoinText([item]) && JsonText(JArr(rest)) == JoinText(rest);
    assert JsonText(JArr([item] + rest)) == JoinText([item] + rest);
    if rest != [] {
      assert |[item] + rest| > 1;
      assert JoinText([item] + rest) ==
             if head.None? || JoinText(rest).None? then None else Some(head.value + "," + JoinText(rest).value);
    }
  }

  /** The falsy values; every array and object is truthy. */
  lemma FalsyIs(v: Value)
    ensures !Truthy(v) <==>
            v in {None, Some(JNull), Some(JBool(false)), Some(JStr(""))} || (v.Some? && v.value.JNum? && v.value.zero)
  {
  }

  /** `undefined` or `null`, the values `??` replaces. */
  predicate Nullish(v: Value) {
    v.None? || v.value.JNull?
  }

  /** One entry of a PatchOp request. */
  datatype PatchOp = PatchOp(op: string, path: Option<string>, value: Value)

  /** `!path` */
  predicate NoPath(op: PatchOp) {
    op.path.None? || op.path.value == ""
  }

  /** op.toLowerCase() === word, for a word of lower-case ASCII letters. */
  predicate IsOp(op: string, word: string) {
    |op| == |word| && forall i :: 0 <= i < |op| ==> Lower(op[i]) == word[i]
  }

  /** The verbs are compared without regard to case. */
  lemma VerbsInAnyCase()
    ensures IsOp("add", "add") && IsOp("ADD", "add") && IsOp("Add", "add")
    ensures IsOp("remove", "remove") && IsOp("Remove", "remove")
    ensures IsOp("replace", "replace") && IsOp("Replace", "replace")
    ensures forall word :: word in {"remove", "replace", "adds", ""} ==> !IsOp(word, "add")
  {
  }
}

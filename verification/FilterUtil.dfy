/** src/scim/common/scim-filter.util.ts: the `attribute eq "value"` recogniser and the page parameters. */
module FilterUtil {
  import opened Prelude

  datatype ParsedFilter = ParsedFilter(attribute: string, value: string)

  /** \w */
  predicate IsWord(c: char) {
    'a' <= c <= 'z' || 'A' <= c <= 'Z' || '0' <= c <= '9' || c == '_'
  }

  /** \s */
  predicate IsSpace(c: char) {
    || '\U{9}' <= c <= '\U{D}' || c == ' ' || c == '\U{A0}' || c == '\U{1680}' || '\U{2000}' <= c <= '\U{200A}'
    || c == '\U{2028}' || c == '\U{2029}' || c == '\U{202F}' || c == '\U{205F}' || c == '\U{3000}' || c == '\U{FEFF}'
  }

  /** What `.` does not match. */
  predicate IsLineTerminator(c: char) {
    c == '\n' || c == '\r' || c == '\U{2028}' || c == '\U{2029}'
  }

  predicate All(s: string, p: char -> bool) {
    forall c :: c in s ==> p(c)
  }

  predicate OneLine(s: string) {
    forall c :: c in s ==> !IsLineTerminator(c)
  }

  /** `\w`, `\s` and what `.` leaves out, by their code points; `eq` in any case. */
  lemma ClassesAre(c: char, s: string)
    ensures IsWord(c) <==> 48 <= c as int <= 57 || 65 <= c as int <= 90 || c as int == 95 || 97 <= c as int <= 122
    ensures IsSpace(c) <==> c as int in {9, 10, 11, 12, 13, 32, 160, 5760, 8232, 8233, 8239, 8287, 12288, 65279}
                            || c as int in {8192, 8193, 8194, 8195, 8196, 8197, 8198, 8199, 8200, 8201, 8202}
    ensures IsLineTerminator(c) <==> c as int in {10, 13, 8232, 8233}
    ensures OneLine(s) <==> forall i :: 0 <= i < |s| ==> s[i] as int !in {10, 13, 8232, 8233}
    ensures IsEq(s) <==> s in {"eq", "eQ", "Eq", "EQ"}
  {
    if |s| == 2 { assert s == [s[0], s[1]]; }
    if exists i :: 0 <= i < |s| && IsLineTerminator(s[i]) {
      var i :| 0 <= i < |s| && IsLineTerminator(s[i]);
      assert s[i] in s;
    }
  }

  // ---------------------------------------------------------------- scanner

  /** The end of the longest run of `p` characters that starts at `i`. */
  function RunEnd(s: string, i: nat, p: char -> bool): (e: nat)
    requires i <= |s|
    ensures i <= e <= |s|
    ensures forall k :: i <= k < e ==> p(s[k])
    ensures e < |s| ==> !p(s[e])
    decreases |s| - i
  {
    if i == |s| || !p(s[i]) then i else RunEnd(s, i + 1, p)
  }

  /** The end of `\w+(?:\.\w+)?`, or 0 when there is no word at the start. */
  function AttributeEnd(s: string): (e: nat)
    ensures e <= |s|
  {
    var a := RunEnd(s, 0, IsWord);
    if a == 0 || a == |s| || s[a] != '.' then a
    else
      var b := RunEnd(s, a + 1, IsWord);
      if b == a + 1 then a else b
  }

  predicate IsEq(s: string) {
    |s| == 2 && Lower(s[0]) == 'e' && Lower(s[1]) == 'q'
  }

  function ParseEqFilter(filter: Option<string>): Option<ParsedFilter> {
    if filter.None? || filter.value == "" then None
    else
      var s := filter.value;
      var a := AttributeEnd(s);
      var b := RunEnd(s, a, IsSpace);
      if a == 0 || b == a || b + 2 > |s| || !IsEq(s[b..b + 2]) then None
      else
        var c := RunEnd(s, b + 2, IsSpace);
        if c == b + 2 || c + 2 > |s| || s[c] != '"' || s[|s| - 1] != '"' || !OneLine(s[c + 1..|s| - 1]) then None
        else Some(ParsedFilter(s[..a], s[c + 1..|s| - 1]))
  }

  // ---------------------------------------------------------------- grammar

  predicate IsWordString(s: string) {
    s != "" && All(s, IsWord)
  }

  ghost predicate IsAttribute(s: string) {
    IsWordString(s) || exists w1, w2 :: IsWordString(w1) && IsWordString(w2) && s == w1 + "." + w2
  }

  predicate IsGap(s: string) {
    s != "" && All(s, IsSpace)
  }

  /** The pieces of an accepted filter. */
  datatype Parts = Parts(attribute: string, gap1: string, op: string, gap2: string, value: string)

  function Concat(pieces: seq<string>): string {
    if pieces == [] then "" else pieces[0] + Concat(pieces[1..])
  }

  function Spelling(p: Parts): string {
    Concat([p.attribute, p.gap1, p.op, p.gap2, "\"", p.value, "\""])
  }

  ghost predicate WellFormed(p: Parts) {
    IsAttribute(p.attribute) && IsGap(p.gap1) && IsEq(p.op) && IsGap(p.gap2) && OneLine(p.value)
  }

  ghost predicate Derives(s: string, f: ParsedFilter) {
    exists p :: WellFormed(p) && Spelling(p) == s && f == ParsedFilter(p.attribute, p.value)
  }

  // ---------------------------------------------------------------- the scanner decides the grammar

  lemma {:induction false} RunEndIs(s: string, i: nat, e: nat, p: char -> bool)
    requires i <= e <= |s|
    requires forall k :: i <= k < e ==> p(s[k])
    requires e < |s| ==> !p(s[e])
    ensures RunEnd(s, i, p) == e
    decreases e - i
  {
    if i < e {
      RunEndIs(s, i + 1, e, p);
    }
  }

  lemma AttributeEndIs(s: string, attr: string)
    requires IsAttribute(attr) && |attr| < |s| && s[..|attr|] == attr
    requires !IsWord(s[|attr|]) && s[|attr|] != '.'
    ensures AttributeEnd(s) == |attr|
  {
    assert forall k :: 0 <= k < |attr| ==> s[k] == attr[k];
    if IsWordString(attr) {
      RunEndIs(s, 0, |attr|, IsWord);
    } else {
      var w1, w2 :| IsWordString(w1) && IsWordString(w2) && attr == w1 + "." + w2;
      assert forall k :: 0 <= k < |w1| ==> attr[k] == w1[k];
      assert attr[|w1|] == '.';
      assert forall k :: 0 <= k < |w2| ==> attr[|w1| + 1 + k] == w2[k];
      RunEndIs(s, 0, |w1|, IsWord);
      assert forall k :: |w1| + 1 <= k < |attr| ==> s[k] == w2[k - |w1| - 1];
      RunEndIs(s, |w1| + 1, |attr|, IsWord);
    }
  }

  lemma AttributeEndSound(s: string)
    requires AttributeEnd(s) != 0
    ensures IsAttribute(s[..AttributeEnd(s)])
  {
    var a := RunEnd(s, 0, IsWord);
    assert IsWordString(s[..a]);
    var e := AttributeEnd(s);
    if e != a {
      assert IsWordString(s[a + 1..e]);
      assert s[..e] == s[..a] + "." + s[a + 1..e];
    }
  }

  lemma SpellingSlices(x: string, y: string, z: string)
    ensures (x + y + z)[..|x|] == x
    ensures (x + y + z)[|x|..|x| + |y|] == y
    ensures (x + y + z)[..|x| + |y|] == x + y
  {
  }

  /** Where the pieces of a spelling lie: `a`, `b` and `c` end the attribute and the two gaps. */
  ghost predicate CutAt(s: string, p: Parts, a: nat, b: nat, c: nat) {
    && a < b && b + 2 < c && c + 2 <= |s|
    && s[..a] == p.attribute && s[a..b] == p.gap1 && s[b..b + 2] == p.op && s[b + 2..c] == p.gap2
    && s[c] == '"' && s[|s| - 1] == '"' && s[c + 1..|s| - 1] == p.value
  }

  lemma Regroup(u: string, x: string, y: string)
    ensures u + x + y == u + (x + y)
  {
  }

  lemma ConcatStep(x: string, rest: seq<string>)
    ensures Concat([x] + rest) == x + Concat(rest)
  {
    assert ([x] + rest)[1..] == rest;
  }

  lemma Concat3(x: string, y: string, z: string)
    ensures Concat([x, y, z]) == x + y + z
  {
    ConcatStep(x, [y, z]);
    ConcatStep(y, [z]);
    ConcatStep(z, []);
    assert [x] + [y, z] == [x, y, z] && [y] + [z] == [y, z] && [z] + [] == [z];
    Regroup(x, y, z);
  }

  lemma Concat4(x: string, y: string, z: string, w: string, rest: seq<string>)
    ensures Concat([x, y, z, w] + rest) == x + y + z + w + Concat(rest)
  {
    ConcatStep(x, [y, z, w] + rest);
    ConcatStep(y, [z, w] + rest);
    ConcatStep(z, [w] + rest);
    ConcatStep(w, rest);
    assert [x] + ([y, z, w] + rest) == [x, y, z, w] + rest;
    assert [y] + ([z, w] + rest) == [y, z, w] + rest;
    assert [z] + ([w] + rest) == [z, w] + rest;
    Regroup(x, y, z + (w + Concat(rest)));
    Regroup(x + y, z, w + Concat(rest));
    Regroup(x + y + z, w, Concat(rest));
  }

  lemma SpellingIs(p: Parts)
    ensures Spelling(p) == (p.attribute + p.gap1 + p.op + p.gap2) + ("\"" + p.value + "\"")
  {
    Concat4(p.attribute, p.gap1, p.op, p.gap2, ["\"", p.value, "\""]);
    Concat3("\"", p.value, "\"");
    assert [p.attribute, p.gap1, p.op, p.gap2] + ["\"", p.value, "\""] == [p.attribute, p.gap1, p.op, p.gap2, "\"", p.value, "\""];
  }

  ghost predicate IsCut(s: string, p: Parts) {
    exists a: nat, b: nat, c: nat :: CutAt(s, p, a, b, c)
  }

  lemma SpellingIsCut(p: Parts)
    requires p.gap1 != "" && |p.op| == 2 && p.gap2 != ""
    ensures IsCut(Spelling(p), p)
  {
    var t1 := p.attribute + p.gap1;
    var t2 := t1 + p.op;
    var t3 := t2 + p.gap2;
    var t4 := t3 + "\"";
    var s := t4 + p.value + "\"";
    SpellingIs(p);
    Regroup(t3, "\"" + p.value, "\"");
    Regroup(t3, "\"", p.value);
    assert s == Spelling(p);
    var a, b, c := |p.attribute|, |t1|, |t3|;
    SpellingSlices(t4, p.value, "\"");
    SpellingSlices(t3, "\"", p.value + "\"");
    Regroup(t4, p.value, "\"");
    Regroup(t3, "\"", p.value + "\"");
    assert s[..|t3|] == t3;
    SpellingSlices(t2, p.gap2, "");
    SpellingSlices(t1, p.op, p.gap2);
    SpellingSlices(p.attribute, p.gap1, p.op);
    assert s[b + 2..c] == t3[b + 2..c];
    assert s[b..b + 2] == t3[b..b + 2];
    assert t3[..|t2|] == t2;
    assert s[a..b] == t2[a..b];
    assert s[..a] == t2[..a];
    assert CutAt(s, p, a, b, c);
  }

  lemma RunIs(s: string, i: nat, e: nat, run: string)
    requires i <= e < |s| && s[i..e] == run
    requires All(run, IsSpace) && !IsSpace(s[e])
    ensures RunEnd(s, i, IsSpace) == e
  {
    assert forall k :: i <= k < e ==> s[k] == run[k - i] && s[k] in run;
    RunEndIs(s, i, e, IsSpace);
  }

  /** On a well-formed spelling the scanner stops where the pieces end. */
  lemma ScannerStops(s: string, p: Parts, a: nat, b: nat, c: nat)
    requires WellFormed(p) && CutAt(s, p, a, b, c)
    ensures AttributeEnd(s) == a && RunEnd(s, a, IsSpace) == b && RunEnd(s, b + 2, IsSpace) == c
  {
    assert s[a] == p.gap1[0] && p.gap1[0] in p.gap1;
    AttributeEndIs(s, p.attribute);
    assert s[b] == p.op[0];
    RunIs(s, a, b, p.gap1);
    RunIs(s, b + 2, c, p.gap2);
  }

  /** What the recogniser returns when its scans stop at `a`, `b` and `c`. */
  lemma ParseAt(s: string, a: nat, b: nat, c: nat)
    requires 0 < a < b && b + 2 < c && c + 2 <= |s|
    requires AttributeEnd(s) == a && RunEnd(s, a, IsSpace) == b && RunEnd(s, b + 2, IsSpace) == c
    requires IsEq(s[b..b + 2]) && s[c] == '"' && s[|s| - 1] == '"' && OneLine(s[c + 1..|s| - 1])
    ensures ParseEqFilter(Some(s)) == Some(ParsedFilter(s[..a], s[c + 1..|s| - 1]))
  {
  }

  lemma ParseCut(s: string, p: Parts)
    requires WellFormed(p) && IsCut(s, p)
    ensures ParseEqFilter(Some(s)) == Some(ParsedFilter(p.attribute, p.value))
  {
    var a: nat, b: nat, c: nat :| CutAt(s, p, a, b, c);
    ScannerStops(s, p, a, b, c);
    ParseAt(s, a, b, c);
  }

  lemma ParseSpelling(p: Parts)
    requires WellFormed(p)
    ensures ParseEqFilter(Some(Spelling(p))) == Some(ParsedFilter(p.attribute, p.value))
  {
    SpellingIsCut(p);
    ParseCut(Spelling(p), p);
  }

  lemma CutSpells(s: string, p: Parts, a: nat, b: nat, c: nat)
    requires CutAt(s, p, a, b, c)
    ensures Spelling(p) == s
  {
    assert s == s[..c] + s[c..];
    assert s[..c] == s[..b + 2] + s[b + 2..c];
    assert s[..b + 2] == s[..b] + s[b..b + 2];
    assert s[..b] == s[..a] + s[a..b];
    assert s[c..] == "\"" + p.value + "\"";
    SpellingIs(p);
  }

  /** The pieces between the positions where the scanner stops. */
  function Pieces(s: string, a: nat, b: nat, c: nat): Parts
    requires a <= b && b + 2 <= c && c + 2 <= |s|
  {
    Parts(s[..a], s[a..b], s[b..b + 2], s[b + 2..c], s[c + 1..|s| - 1])
  }

  lemma PiecesWellFormed(s: string, a: nat, b: nat, c: nat)
    requires a == AttributeEnd(s) && 0 < a < b && b + 2 < c && c + 2 <= |s|
    requires b == RunEnd(s, a, IsSpace) && c == RunEnd(s, b + 2, IsSpace)
    requires IsEq(s[b..b + 2]) && OneLine(s[c + 1..|s| - 1])
    ensures WellFormed(Pieces(s, a, b, c))
  {
    AttributeEndSound(s);
    assert IsGap(s[a..b]) && IsGap(s[b + 2..c]);
  }

  /** What the scanner accepts has pieces that spell it. */
  lemma ParseSound(s: string, f: ParsedFilter)
    requires ParseEqFilter(Some(s)) == Some(f)
    ensures Derives(s, f)
  {
    var a := AttributeEnd(s);
    var b := RunEnd(s, a, IsSpace);
    var c := RunEnd(s, b + 2, IsSpace);
    PiecesWellFormed(s, a, b, c);
    CutSpells(s, Pieces(s, a, b, c), a, b, c);
    assert f == ParsedFilter(Pieces(s, a, b, c).attribute, Pieces(s, a, b, c).value);
  }

  /** The recogniser accepts exactly the language of the grammar, with the grammar's result. A missing
      filter, or an empty one, is none. */
  lemma RecogniserIsGrammar(filter: Option<string>, f: ParsedFilter)
    ensures ParseEqFilter(filter) == Some(f) <==> filter.Some? && Derives(filter.value, f)
    ensures filter.None? || filter.value == "" ==> ParseEqFilter(filter) == None
  {
    if filter.Some? && ParseEqFilter(filter) == Some(f) {
      ParseSound(filter.value, f);
    }
    if filter.Some? && Derives(filter.value, f) {
      var p :| WellFormed(p) && Spelling(p) == filter.value && f == ParsedFilter(p.attribute, p.value);
      ParseSpelling(p);
    }
  }

  lemma SameCutsSameParts(s: string, p: Parts, q: Parts, a: nat, b: nat, c: nat)
    requires CutAt(s, p, a, b, c) && CutAt(s, q, a, b, c)
    ensures p == q
  {
  }

  lemma CutsAgree(s: string, p: Parts, a: nat, b: nat, c: nat, q: Parts, a': nat, b': nat, c': nat)
    requires WellFormed(p) && CutAt(s, p, a, b, c)
    requires WellFormed(q) && CutAt(s, q, a', b', c')
    ensures p == q
  {
    ScannerStops(s, p, a, b, c);
    ScannerStops(s, q, a', b', c');
    SameCutsSameParts(s, p, q, a, b, c);
  }

  /** A string is cut into pieces in at most one way. */
  lemma DecompositionUnique(p: Parts, q: Parts)
    requires WellFormed(p) && WellFormed(q) && Spelling(p) == Spelling(q)
    ensures p == q
  {
    SpellingIsCut(p);
    SpellingIsCut(q);
    var s := Spelling(p);
    var a: nat, b: nat, c: nat :| CutAt(s, p, a, b, c);
    var a': nat, b': nat, c': nat :| CutAt(s, q, a', b', c');
    CutsAgree(s, p, a, b, c, q, a', b', c');
  }

  function PrintFilter(attribute: string, value: string): string {
    attribute + " eq \"" + value + "\""
  }

  /** Printing and parsing give a pair back exactly when the pair can be spelled at all. */
  lemma PrintParse(attribute: string, value: string)
    ensures ParseEqFilter(Some(PrintFilter(attribute, value))) == Some(ParsedFilter(attribute, value))
            <==> IsAttribute(attribute) && OneLine(value)
  {
    var s := PrintFilter(attribute, value);
    if IsAttribute(attribute) && OneLine(value) {
      var p := Parts(attribute, " ", "eq", " ", value);
      SpellingIs(p);
      assert Spelling(p) == s;
      ParseSpelling(p);
    }
    if ParseEqFilter(Some(s)) == Some(ParsedFilter(attribute, value)) {
      ParseSound(s, ParsedFilter(attribute, value));
    }
  }

  /** The documented form, on an attribute or on a part of one. */
  lemma DocumentedForm(word: string, part: string, value: string)
    requires IsWordString(word) && IsWordString(part) && OneLine(value)
    ensures ParseEqFilter(Some(word + " eq \"" + value + "\"")) == Some(ParsedFilter(word, value))
    ensures ParseEqFilter(Some(word + "." + part + " eq \"" + value + "\"")) == Some(ParsedFilter(word + "." + part, value))
  {
    PrintParse(word, value);
    PrintParse(word + "." + part, value);
  }

  // ---------------------------------------------------------------- page parameters

  datatype Pagination = Pagination(startIndex: int, count: int)

  /** A missing or non-numeric parameter is None. */
  function ParsePagination(startIndex: Option<int>, count: Option<int>): (p: Pagination)
    ensures p.startIndex >= 1 && p.count >= 0
    ensures startIndex.Some? && startIndex.value >= 1 ==> p.startIndex == startIndex.value
    ensures startIndex.None? || startIndex.value < 1 ==> p.startIndex == 1
    ensures count.Some? && count.value >= 0 ==> p.count == count.value
    ensures count.None? || count.value < 0 ==> p.count == 100
  {
    Pagination(if startIndex.Some? && startIndex.value >= 1 then startIndex.value else 1,
               if count.Some? && count.value >= 0 then count.value else 100)
  }
}

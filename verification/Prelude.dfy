/** Small generic helpers shared by every part of the model. */
module Prelude {

  datatype Option<+T> = None | Some(value: T)

  datatype Result<+T, +E> = Ok(value: T) | Err(error: E)

  /** No element stands at two positions. */
  ghost predicate NoDup<T>(s: seq<T>) {
    forall i, j :: 0 <= i < j < |s| ==> s[i] != s[j]
  }

  function Elems<T>(s: seq<T>): set<T> {
    set x | x in s
  }

  /** The elements of `s` that satisfy `p`, in order. */
  function Keep<T(!new)>(s: seq<T>, p: T -> bool): (r: seq<T>)
    ensures forall x :: x in r <==> x in s && p(x)
    ensures |r| <= |s|
  {
    if s == [] then []
    else if p(s[0]) then [s[0]] + Keep(s[1..], p)
    else Keep(s[1..], p)
  }

  lemma {:induction false} KeepNoDup<T(!new)>(s: seq<T>, p: T -> bool)
    requires NoDup(s)
    ensures NoDup(Keep(s, p))
  {
    if s != [] {
      KeepNoDup(s[1..], p);
    }
  }

  lemma {:induction false} KeepAll<T(!new)>(s: seq<T>, p: T -> bool)
    requires forall x :: x in s ==> p(x)
    ensures Keep(s, p) == s
  {
    if s != [] {
      KeepAll(s[1..], p);
      assert s == [s[0]] + s[1..];
    }
  }

  lemma {:induction false} KeepNone<T(!new)>(s: seq<T>, p: T -> bool)
    requires forall x :: x in s ==> !p(x)
    ensures Keep(s, p) == []
  {
    if s != [] {
      KeepNone(s[1..], p);
    }
  }

  lemma {:induction false} KeepConcat<T(!new)>(s: seq<T>, t: seq<T>, p: T -> bool)
    ensures Keep(s + t, p) == Keep(s, p) + Keep(t, p)
  {
    if s == [] {
      assert s + t == t;
    } else {
      assert (s + t)[1..] == s[1..] + t;
      KeepConcat(s[1..], t, p);
    }
  }

  /** Only the elements of `s` matter to what is kept. */
  lemma {:induction false} KeepSame<T(!new)>(s: seq<T>, p: T -> bool, q: T -> bool)
    requires forall x :: x in s ==> p(x) == q(x)
    ensures Keep(s, p) == Keep(s, q)
  {
    if s != [] {
      KeepSame(s[1..], p, q);
    }
  }

  lemma {:induction false} KeepKeep<T(!new)>(s: seq<T>, p: T -> bool, q: T -> bool, both: T -> bool)
    requires forall x :: x in s ==> (both(x) <==> p(x) && q(x))
    ensures Keep(Keep(s, p), q) == Keep(s, both)
  {
    if s != [] {
      KeepKeep(s[1..], p, q, both);
      if p(s[0]) {
        assert Keep(s, p)[1..] == Keep(s[1..], p);
      }
    }
  }

  lemma KeepPrefix<T(!new)>(s: seq<T>, t: seq<T>, p: T -> bool)
    requires s <= t
    ensures Keep(s, p) <= Keep(t, p)
  {
    KeepConcat(s, t[|s|..], p);
    assert t == s + t[|s|..];
  }

  /** Keeping moves an element to the left, if at all. */
  lemma {:induction false} KeepMovesLeft<T(!new)>(s: seq<T>, p: T -> bool, i: nat) returns (j: nat)
    requires i < |Keep(s, p)|
    ensures i <= j < |s| && s[j] == Keep(s, p)[i]
  {
    if p(s[0]) && i == 0 {
      j := 0;
    } else {
      var k := KeepMovesLeft(s[1..], p, if p(s[0]) then i - 1 else i);
      j := k + 1;
    }
  }

  lemma {:induction false} KeepFull<T(!new)>(s: seq<T>, p: T -> bool)
    requires |Keep(s, p)| == |s|
    ensures forall x :: x in s ==> p(x)
  {
    if s != [] {
      KeepFull(s[1..], p);
    }
  }

  lemma NoDupAppend<T>(s: seq<T>, x: T)
    requires NoDup(s) && x !in s
    ensures NoDup(s + [x])
  {
  }

  // ---------------------------------------------------------------- ranks

  function WantedBelow<T(!new)>(s: seq<T>, want: T -> bool, k: nat): set<nat>
    requires k <= |s|
  {
    set i: nat | i < k && want(s[i])
  }

  /** How many of the first `k` elements are wanted. */
  function Before<T(!new)>(s: seq<T>, want: T -> bool, k: nat): nat
    requires k <= |s|
  {
    |WantedBelow(s, want, k)|
  }

  lemma {:induction false} BeforeIsKept<T(!new)>(s: seq<T>, want: T -> bool, k: nat)
    requires k <= |s|
    ensures Before(s, want, k) == |Keep(s[..k], want)|
    decreases k
  {
    if k > 0 {
      var n := k - 1;
      BeforeIsKept(s, want, n);
      assert s[..k] == s[..n] + [s[n]];
      KeepConcat(s[..n], [s[n]], want);
      assert [s[n]][1..] == [];
      BelowNext(s, want, n);
    }
  }

  lemma BelowNext<T(!new)>(s: seq<T>, want: T -> bool, n: nat)
    requires n < |s|
    ensures Before(s, want, n + 1) == Before(s, want, n) + if want(s[n]) then 1 else 0
  {
    var first := WantedBelow(s, want, n);
    assert WantedBelow(s, want, n + 1) == if want(s[n]) then first + {n} else first;
  }

  /** Where a kept element stands. */
  lemma {:induction false} KeptAt<T(!new)>(s: seq<T>, want: T -> bool, i: nat) returns (k: nat)
    requires i < |Keep(s, want)|
    ensures k < |s| && s[k] == Keep(s, want)[i] && want(s[k]) && |Keep(s[..k], want)| == i
    decreases |s|
  {
    var n := |s| - 1;
    assert s == s[..n] + [s[n]];
    KeepConcat(s[..n], [s[n]], want);
    assert [s[n]][1..] == [];
    if i < |Keep(s[..n], want)| {
      k := KeptAt(s[..n], want, i);
      assert s[..n][..k] == s[..k];
    } else {
      k := n;
    }
  }

  // ---------------------------------------------------------------- characters and strings

  /** Some string is not in a finite set. */
  lemma FreshString(used: set<string>) returns (x: string)
    ensures x !in used
  {
    var n: nat := 0;
    var rest := used;
    while rest != {}
      invariant rest <= used
      invariant forall y :: y in used && y !in rest ==> |y| < n
      decreases rest
    {
      var y :| y in rest;
      if |y| >= n { n := |y| + 1; }
      rest := rest - {y};
    }
    x := seq(n, i => 'x');
  }

  /** Lower-cases the ASCII letters, the only ones the source compares without regard to case. */
  function Lower(c: char): char {
    if 'A' <= c <= 'Z' then (c as int - 'A' as int + 'a' as int) as char else c
  }

  /** Exactly the 26 ASCII capitals change, each to its small letter. */
  lemma LowerIs(c: char)
    ensures forall i :: 0 <= i < 26 ==> Lower("ABCDEFGHIJKLMNOPQRSTUVWXYZ"[i]) == "abcdefghijklmnopqrstuvwxyz"[i]
    ensures c !in "ABCDEFGHIJKLMNOPQRSTUVWXYZ" ==> Lower(c) == c
  {
    if 'A' <= c <= 'Z' { assert "ABCDEFGHIJKLMNOPQRSTUVWXYZ"[c as int - 65] == c; }
  }
}

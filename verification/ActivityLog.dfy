/** The activity log of src/demo/demo.page.ts: cards inserted incrementally from polled snapshots. */
module ActivityLog {
  import opened Prelude
  import opened EventsStore

  /** `cards` from the top of the page down; `placeholder` is the "waiting for traffic" element. */
  datatype View = View(cards: seq<DemoEvent>, placeholder: bool, renderedSeq: nat)

  const EMPTY_VIEW := View([], true, 0)

  function Reverse<T>(s: seq<T>): (r: seq<T>)
    ensures |r| == |s|
  {
    if s == [] then [] else Reverse(s[1..]) + [s[0]]
  }

  /** Stable insertion by number, for `sort((a, b) => a.seq - b.seq)`. */
  function InsertSorted(s: seq<DemoEvent>, e: DemoEvent): seq<DemoEvent> {
    if s == [] then [e]
    else if e.number <= s[0].number then [e] + s
    else [s[0]] + InsertSorted(s[1..], e)
  }

  function Sorted(s: seq<DemoEvent>): seq<DemoEvent> {
    if s == [] then [] else InsertSorted(Sorted(s[1..]), s[0])
  }

  function Newer(events: seq<DemoEvent>, than: nat): seq<DemoEvent> {
    Keep(events, (e: DemoEvent) => e.number > than)
  }

  /** What `updateLog` makes of a view. */
  function Update(v: View, events: seq<DemoEvent>): View {
    if events == [] then (if v.placeholder then v else EMPTY_VIEW)
    else
      var unseen := Newer(events, v.renderedSeq);
      if unseen == [] then v
      else View(Reverse(Sorted(unseen)) + (if v.placeholder then [] else v.cards), false, events[|events| - 1].number)
  }

  class LogPanel {
    var cards: seq<DemoEvent>
    var placeholder: bool
    var renderedSeq: nat

    constructor ()
      ensures Value() == EMPTY_VIEW
    {
      cards, placeholder, renderedSeq := [], true, 0;
    }

    function Value(): View
      reads this
    {
      View(cards, placeholder, renderedSeq)
    }

    method ShowLogEmpty()
      modifies this
      ensures Value() == EMPTY_VIEW
    {
      cards, placeholder := [], true;
      renderedSeq := 0;
    }

    method UpdateLog(events: seq<DemoEvent>)
      modifies this
      ensures Value() == Update(old(Value()), events)
    {
      if |events| == 0 {
        if !placeholder { ShowLogEmpty(); }
        return;
      }
      var unseen := Newer(events, renderedSeq);
      if |unseen| == 0 { return; }
      if placeholder { cards, placeholder := [], false; }
      var sorted := Sorted(unseen);
      ghost var base := cards;
      assert sorted != [] by { SortedLength(unseen); }
      for i := 0 to |sorted|
        invariant Reverse(sorted[i..]) + cards == Reverse(sorted) + base
        invariant placeholder == false && renderedSeq == old(renderedSeq)
      {
        assert sorted[i..][1..] == sorted[i + 1..];
        cards := [sorted[i]] + cards;
      }
      assert sorted[|sorted|..] == [];
      renderedSeq := events[|events| - 1].number;
    }
  }

  lemma {:induction false} InsertLength(s: seq<DemoEvent>, e: DemoEvent)
    ensures |InsertSorted(s, e)| == |s| + 1
  {
    if s != [] { InsertLength(s[1..], e); }
  }

  lemma {:induction false} SortedLength(s: seq<DemoEvent>)
    ensures |Sorted(s)| == |s|
  {
    if s != [] {
      SortedLength(s[1..]);
      InsertLength(Sorted(s[1..]), s[0]);
    }
  }

  lemma {:induction false} SortedAlready(s: seq<DemoEvent>)
    requires forall i, j :: 0 <= i < j < |s| ==> s[i].number < s[j].number
    ensures Sorted(s) == s
  {
    if s != [] {
      SortedAlready(s[1..]);
      assert s == [s[0]] + s[1..];
      if |s| > 1 { assert s[0].number < s[1].number; }
    }
  }

  lemma {:induction false} ReverseConcat<T>(s: seq<T>, t: seq<T>)
    ensures Reverse(s + t) == Reverse(t) + Reverse(s)
  {
    if s == [] {
      assert s + t == t;
    } else {
      assert (s + t)[1..] == s[1..] + t;
      ReverseConcat(s[1..], t);
    }
  }

  lemma {:induction false} ReverseAt<T>(s: seq<T>, k: nat)
    requires k < |s|
    ensures Reverse(s)[k] == s[|s| - 1 - k]
  {
    if k < |s| - 1 {
      ReverseAt(s[1..], k);
    }
  }
}

/** src/demo/events.store.ts: a capped log of traffic events with an ever-growing sequence number. */
module EventsStore {
  import opened Prelude

  datatype Source = Okta | Keycloak | Scim

  /** What is reported to the store; the fields the dashboard only prints are one string. */
  datatype Traffic = Traffic(source: Source, text: string)

  /** A stored event; `number` is its `seq`. */
  datatype DemoEvent = DemoEvent(number: nat, traffic: Traffic)

  const CAP := 300

  datatype Buffer = Buffer(events: seq<DemoEvent>, counter: nat)

  const NEW_BUFFER := Buffer([], 0)

  /** The last `n` elements. */
  function Last<T>(s: seq<T>, n: nat): seq<T> {
    if |s| > n then s[|s| - n..] else s
  }

  function Added(b: Buffer, t: Traffic): Buffer {
    Buffer(Last(b.events + [DemoEvent(b.counter + 1, t)], CAP), b.counter + 1)
  }

  function Cleared(b: Buffer): Buffer {
    b.(events := [])
  }

  class Store {
    var events: seq<DemoEvent>
    var counter: nat

    constructor ()
      ensures Value() == NEW_BUFFER
    {
      events, counter := [], 0;
    }

    function Value(): Buffer
      reads this
    {
      Buffer(events, counter)
    }

    method Add(t: Traffic) returns (evt: DemoEvent)
      modifies this
      ensures Value() == Added(old(Value()), t)
      ensures evt == DemoEvent(old(counter) + 1, t)
    {
      counter := counter + 1;
      evt := DemoEvent(counter, t);
      events := events + [evt];
      if |events| > CAP {
        events := events[|events| - CAP..];
      }
    }

    method List() returns (r: seq<DemoEvent>)
      ensures r == Value().events
    {
      r := events;
    }

    method Clear()
      modifies this
      ensures Value() == Cleared(old(Value()))
    {
      events := [];
    }
  }

  // ---------------------------------------------------------------- against the whole history

  datatype Op = Add(traffic: Traffic) | Clear

  function AfterOps(ops: seq<Op>): Buffer {
    if ops == [] then NEW_BUFFER
    else
      var b := AfterOps(ops[..|ops| - 1]);
      match ops[|ops| - 1]
      case Add(t) => Added(b, t)
      case Clear => Cleared(b)
  }

  /** Every event ever added, numbered from 1. */
  function History(ops: seq<Op>): seq<DemoEvent> {
    if ops == [] then []
    else
      var h := History(ops[..|ops| - 1]);
      match ops[|ops| - 1]
      case Add(t) => h + [DemoEvent(|h| + 1, t)]
      case Clear => h
  }

  function AddsSinceClear(ops: seq<Op>): nat {
    if ops == [] || ops[|ops| - 1].Clear? then 0 else AddsSinceClear(ops[..|ops| - 1]) + 1
  }

  /** The numbers of the history run from 1 without a gap or a repetition. */
  ghost predicate Contiguous(h: seq<DemoEvent>) {
    forall i :: 0 <= i < |h| ==> h[i].number == i + 1
  }

  function Capped(n: nat): nat {
    if n < CAP then n else CAP
  }

  lemma LastOfAppend(h: seq<DemoEvent>, n: nat, e: DemoEvent)
    requires n <= |h|
    ensures Last(Last(h, Capped(n)) + [e], CAP) == Last(h + [e], Capped(n + 1))
  {
    var k := Capped(n);
    assert Last(h, k) == h[|h| - k..];
    assert h[|h| - k..] + [e] == (h + [e])[|h| - k..];
    if k == CAP {
      assert (h + [e])[|h| - k..][1..] == (h + [e])[|h| + 1 - CAP..];
    }
  }

  /** After any adds and clears the buffer is the last min(300, adds since the last clear) events of the
      history, and the counter is the length of the history. */
  lemma {:induction false} BufferIsSuffix(ops: seq<Op>)
    ensures AddsSinceClear(ops) <= |History(ops)|
    ensures AfterOps(ops).events == Last(History(ops), Capped(AddsSinceClear(ops)))
    ensures AfterOps(ops).counter == |History(ops)|
    ensures Contiguous(History(ops))
  {
    if ops != [] {
      var before := ops[..|ops| - 1];
      BufferIsSuffix(before);
      if ops[|ops| - 1].Add? {
        LastOfAppend(History(before), AddsSinceClear(before), DemoEvent(|History(before)| + 1, ops[|ops| - 1].traffic));
      }
    }
  }

  /** In plain numbers: of the events added since the last clear the buffer holds the newest 300, or all of
      them when there are fewer, oldest first. */
  lemma BufferHolds(ops: seq<Op>)
    ensures |AfterOps(ops).events| == if AddsSinceClear(ops) < 300 then AddsSinceClear(ops) else 300
    ensures |AfterOps(ops).events| <= |History(ops)|
    ensures forall i :: 0 <= i < |AfterOps(ops).events| ==>
              AfterOps(ops).events[i] == History(ops)[|History(ops)| - |AfterOps(ops).events| + i]
  {
    BufferIsSuffix(ops);
  }

  /** The history holds every reported event, in the order of the reports. */
  lemma {:induction false} HistoryIs(ops: seq<Op>, k: nat)
    requires k < |ops| && ops[k].Add?
    ensures |History(ops[..k])| < |History(ops)|
    ensures History(ops)[|History(ops[..k])|] == DemoEvent(|History(ops[..k])| + 1, ops[k].traffic)
    decreases |ops|
  {
    var before := ops[..|ops| - 1];
    if k < |before| {
      assert before[..k] == ops[..k];
      HistoryIs(before, k);
    } else {
      assert before == ops[..k];
    }
  }

  /** The length of the history is the number of reports. */
  lemma {:induction false} HistoryLength(ops: seq<Op>)
    ensures |History(ops)| == |set k | 0 <= k < |ops| && ops[k].Add?|
  {
    if ops != [] {
      var n := |ops| - 1;
      var before := ops[..n];
      HistoryLength(before);
      var all := set k | 0 <= k < |ops| && ops[k].Add?;
      var first := set k | 0 <= k < |before| && before[k].Add?;
      assert all == if ops[n].Add? then first + {n} else first;
    }
  }

  /** What has been added since the last clear is what follows it. */
  lemma {:induction false} SinceClearIs(ops: seq<Op>, adds: seq<Op>)
    requires forall op :: op in adds ==> op.Add?
    ensures AddsSinceClear(ops + [Clear] + adds) == |adds|
    decreases |adds|
  {
    var all := ops + [Clear] + adds;
    var n := |adds| - 1;
    if adds == [] {
      assert all[|all| - 1] == Clear;
    } else {
      assert all[..|all| - 1] == ops + [Clear] + adds[..n];
      assert all[|all| - 1] == adds[n] && adds[n] in adds;
      SinceClearIs(ops, adds[..n]);
    }
  }

  lemma {:induction false} NeverCleared(adds: seq<Op>)
    requires forall op :: op in adds ==> op.Add?
    ensures AddsSinceClear(adds) == |adds|
    decreases |adds|
  {
    if adds != [] {
      assert adds[|adds| - 1] in adds;
      NeverCleared(adds[..|adds| - 1]);
    }
  }

  /** The buffered numbers are contiguous and end at the counter, and a number is never given twice,
      clears or not. */
  lemma BufferNumbers(ops: seq<Op>)
    ensures var b := AfterOps(ops);
      && (forall i :: 0 <= i < |b.events| ==> b.events[i].number == b.counter - |b.events| + 1 + i)
      && (b.events != [] ==> b.events[|b.events| - 1].number == b.counter)
      && |b.events| <= 300
      && b.counter == |History(ops)|
    ensures forall e, e' :: e in History(ops) && e' in History(ops) && e.number == e'.number ==> e == e'
  {
    BufferIsSuffix(ops);
  }
}

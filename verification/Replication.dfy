/** The dashboard as a replication protocol: the server's buffer, snapshots of it in flight in any number
    and order, and the page's log. */
module Replication {
  import opened Prelude
  import opened EventsStore
  import opened ActivityLog

  /** Recorded for the proofs: every event ever added, and for each of them the number of the first
      event in the buffer just after it was added. */
  datatype Past = Past(history: seq<DemoEvent>, floors: seq<nat>)

  datatype System = System(buffer: Buffer, inFlight: seq<seq<DemoEvent>>, view: View, past: Past)

  const INITIAL := System(NEW_BUFFER, [], EMPTY_VIEW, Past([], []))

  /** The server stores an event or is cleared (by any page); a poll reads the buffer; a response arrives
      or is lost, in any order; the page's own clear button empties the log. */
  datatype Action = Ingest(traffic: Traffic) | ClearServer | Poll | Deliver(index: nat) | Lose(index: nat) | ClearPage

  function Without<T>(s: seq<T>, i: nat): seq<T>
    requires i < |s|
  {
    s[..i] + s[i + 1..]
  }

  function Recorded(p: Past, b: Buffer, t: Traffic): Past {
    var b' := Added(b, t);
    Past(p.history + [DemoEvent(b'.counter, t)], p.floors + [b'.events[0].number])
  }

  function Step(s: System, a: Action): System {
    match a
    case Ingest(t) => s.(buffer := Added(s.buffer, t), past := Recorded(s.past, s.buffer, t))
    case ClearServer => s.(buffer := Cleared(s.buffer))
    case Poll => s.(inFlight := s.inFlight + [s.buffer.events])
    case Deliver(i) =>
      if i < |s.inFlight| then s.(inFlight := Without(s.inFlight, i), view := Update(s.view, s.inFlight[i])) else s
    case Lose(i) => if i < |s.inFlight| then s.(inFlight := Without(s.inFlight, i)) else s
    case ClearPage => s.(view := EMPTY_VIEW)
  }

  function Run(s: System, actions: seq<Action>): System
    decreases |actions|
  {
    if actions == [] then s else Run(Step(s, actions[0]), actions[1..])
  }

  // ---------------------------------------------------------------- invariant

  /** The floors never go down, and an event is never below its own floor. */
  ghost predicate PastOk(p: Past) {
    && |p.floors| == |p.history|
    && Contiguous(p.history)
    && (forall b :: 0 <= b < |p.floors| ==> 1 <= p.floors[b] <= b + 1)
    && (forall b, c :: 0 <= b <= c < |p.floors| ==> p.floors[b] <= p.floors[c])
  }

  /** The first index of what a poll saw just after event `b` was added, and until the next change. */
  function Floor(p: Past, b: nat): (lo: nat)
    requires PastOk(p) && 1 <= b <= |p.history|
    ensures lo < b
  {
    p.floors[b - 1] - 1
  }

  function SnapshotAt(p: Past, b: nat): (snap: seq<DemoEvent>)
    requires PastOk(p) && 1 <= b <= |p.history|
    ensures snap != [] && snap[|snap| - 1].number == b
  {
    p.history[Floor(p, b)..b]
  }

  ghost predicate IsSnapshot(p: Past, snap: seq<DemoEvent>)
    requires PastOk(p)
  {
    snap == [] || exists b: nat :: 1 <= b <= |p.history| && snap == SnapshotAt(p, b)
  }

  ghost predicate BufferOk(p: Past, b: Buffer)
    requires PastOk(p)
  {
    && b.counter == |p.history|
    && (b.events != [] ==> p.history != [] && b.events == SnapshotAt(p, |p.history|))
  }

  /** Strictly decreasing numbers from the top down, so no card appears twice. */
  predicate StrictlyDecreasing(cards: seq<DemoEvent>) {
    forall i, j :: 0 <= i < j < |cards| ==> cards[i].number > cards[j].number
  }

  predicate TopIsRendered(v: View) {
    v.renderedSeq == if v.cards == [] then 0 else v.cards[0].number
  }

  predicate Consistent(v: View) {
    StrictlyDecreasing(v.cards) && TopIsRendered(v) && (v.placeholder <==> v.cards == [])
  }

  /** The top of the log is what a poll saw when the top card was the newest event. */
  ghost predicate ViewOk(p: Past, v: View)
    requires PastOk(p)
  {
    && Consistent(v)
    && (v.cards != [] ==> 1 <= v.renderedSeq <= |p.history| && Reverse(SnapshotAt(p, v.renderedSeq)) <= v.cards)
  }

  ghost predicate InFlightOk(p: Past, inFlight: seq<seq<DemoEvent>>)
    requires PastOk(p)
  {
    forall k :: 0 <= k < |inFlight| ==> IsSnapshot(p, inFlight[k])
  }

  ghost predicate Inv(s: System) {
    && PastOk(s.past)
    && BufferOk(s.past, s.buffer)
    && InFlightOk(s.past, s.inFlight)
    && ViewOk(s.past, s.view)
  }

  // ---------------------------------------------------------------- server side

  /** Appending to a suffix of the history and cutting it to the cap leaves a suffix of the new history. */
  lemma AddedIsSuffix(h: seq<DemoEvent>, lo: nat, e: DemoEvent) returns (lo': nat)
    requires lo <= |h|
    ensures lo <= lo' <= |h| && Last(h[lo..] + [e], CAP) == (h + [e])[lo'..]
  {
    var all := h + [e];
    assert h[lo..] + [e] == all[lo..];
    if |all| - lo > CAP {
      lo' := |all| - CAP;
      assert all[lo..][lo' - lo..] == all[lo'..];
    } else {
      lo' := lo;
    }
  }

  /** The new buffer is a suffix of the new history that starts no earlier than the old one did. */
  lemma BufferAfterIngest(p: Past, b: Buffer, t: Traffic) returns (lo: nat)
    requires PastOk(p) && BufferOk(p, b)
    ensures p.history != [] ==> Floor(p, |p.history|) <= lo
    ensures lo <= |p.history|
    ensures Added(b, t).events == (p.history + [DemoEvent(|p.history| + 1, t)])[lo..]
  {
    var n := |p.history|;
    var from := if b.events == [] then n else Floor(p, n);
    assert b.events == p.history[from..];
    lo := AddedIsSuffix(p.history, from, DemoEvent(n + 1, t));
  }

  lemma PastExtends(p: Past, e: DemoEvent, lo: nat)
    requires PastOk(p) && e.number == |p.history| + 1
    requires lo <= |p.history| && (p.history != [] ==> Floor(p, |p.history|) <= lo)
    ensures PastOk(Past(p.history + [e], p.floors + [lo + 1]))
  {
    var f := p.floors + [lo + 1];
    forall b, c | 0 <= b <= c < |f| ensures f[b] <= f[c] {
      if b < |p.floors| {
        assert p.floors[b] <= p.floors[|p.floors| - 1];
      }
    }
  }

  /** The new floor is the number of the first buffered event. */
  lemma RecordedIs(p: Past, b: Buffer, t: Traffic, lo: nat)
    requires Contiguous(p.history) && b.counter == |p.history| && lo <= |p.history|
    requires Added(b, t).events == (p.history + [DemoEvent(|p.history| + 1, t)])[lo..]
    ensures Recorded(p, b, t) == Past(p.history + [DemoEvent(|p.history| + 1, t)], p.floors + [lo + 1])
  {
    var h := p.history + [DemoEvent(|p.history| + 1, t)];
    assert Added(b, t).events[0] == h[lo];
  }

  lemma ExtendedBufferOk(p: Past, e: DemoEvent, lo: nat, b: Buffer)
    requires PastOk(Past(p.history + [e], p.floors + [lo + 1])) && lo <= |p.history|
    requires b == Buffer((p.history + [e])[lo..], |p.history| + 1)
    ensures BufferOk(Past(p.history + [e], p.floors + [lo + 1]), b)
  {
    var p' := Past(p.history + [e], p.floors + [lo + 1]);
    assert Floor(p', |p.history| + 1) == lo;
  }

  lemma IngestKeepsServer(p: Past, b: Buffer, t: Traffic)
    requires PastOk(p) && BufferOk(p, b)
    ensures PastOk(Recorded(p, b, t)) && BufferOk(Recorded(p, b, t), Added(b, t))
    ensures p.history <= Recorded(p, b, t).history && p.floors <= Recorded(p, b, t).floors
  {
    var e := DemoEvent(|p.history| + 1, t);
    var lo := BufferAfterIngest(p, b, t);
    RecordedIs(p, b, t, lo);
    PastExtends(p, e, lo);
    ExtendedBufferOk(p, e, lo, Added(b, t));
  }

  /** A longer past contains the same snapshots. */
  lemma PastGrows(p: Past, p': Past, b: nat)
    requires PastOk(p) && PastOk(p') && p.history <= p'.history && p.floors <= p'.floors
    requires 1 <= b <= |p.history|
    ensures SnapshotAt(p', b) == SnapshotAt(p, b)
  {
    assert p'.history[..|p.history|] == p.history;
  }

  lemma SnapshotsStay(p: Past, p': Past, inFlight: seq<seq<DemoEvent>>)
    requires PastOk(p) && PastOk(p') && p.history <= p'.history && p.floors <= p'.floors
    requires InFlightOk(p, inFlight)
    ensures InFlightOk(p', inFlight)
  {
    forall k | 0 <= k < |inFlight| ensures IsSnapshot(p', inFlight[k]) {
      assert IsSnapshot(p, inFlight[k]);
      if inFlight[k] != [] {
        var b: nat :| 1 <= b <= |p.history| && inFlight[k] == SnapshotAt(p, b);
        PastGrows(p, p', b);
      }
    }
  }

  lemma IngestKeepsInv(s: System, t: Traffic)
    requires Inv(s)
    ensures Inv(Step(s, Ingest(t)))
  {
    var p' := Recorded(s.past, s.buffer, t);
    IngestKeepsServer(s.past, s.buffer, t);
    SnapshotsStay(s.past, p', s.inFlight);
    if s.view.cards != [] {
      PastGrows(s.past, p', s.view.renderedSeq);
    }
  }

  // ---------------------------------------------------------------- page side

  lemma {:induction false} NewerOfRange(h: seq<DemoEvent>, lo: nat, hi: nat, than: nat)
    requires Contiguous(h) && lo <= hi <= |h|
    ensures Newer(h[lo..hi], than) == if than <= lo then h[lo..hi] else if than < hi then h[than..hi] else []
    decreases hi - lo
  {
    if lo < hi {
      var p := (e: DemoEvent) => e.number > than;
      assert h[lo..hi][1..] == h[lo + 1..hi];
      NewerOfRange(h, lo + 1, hi, than);
      assert h[lo..hi] == [h[lo]] + h[lo + 1..hi];
    }
  }

  lemma SortedRange(h: seq<DemoEvent>, lo: nat, hi: nat)
    requires Contiguous(h) && lo <= hi <= |h|
    ensures Sorted(h[lo..hi]) == h[lo..hi]
  {
    SortedAlready(h[lo..hi]);
  }

  lemma ReverseRange(h: seq<DemoEvent>, lo: nat, mid: nat, hi: nat)
    requires lo <= mid <= hi <= |h|
    ensures Reverse(h[lo..hi]) == Reverse(h[mid..hi]) + Reverse(h[lo..mid])
  {
    assert h[lo..hi] == h[lo..mid] + h[mid..hi];
    ReverseConcat(h[lo..mid], h[mid..hi]);
  }

  lemma ReversedRangeNumbers(h: seq<DemoEvent>, lo: nat, hi: nat)
    requires Contiguous(h) && lo <= hi <= |h|
    ensures forall k :: 0 <= k < hi - lo ==> Reverse(h[lo..hi])[k].number == hi - k
  {
    forall k | 0 <= k < hi - lo ensures Reverse(h[lo..hi])[k].number == hi - k {
      ReverseAt(h[lo..hi], k);
    }
  }

  /** The first index of the events that `updateLog` adds from the range `lo..`. */
  function FirstNew(lo: nat, r: nat): nat {
    if r <= lo then lo else r
  }

  lemma UpdateIs(v: View, events: seq<DemoEvent>, unseen: seq<DemoEvent>)
    requires events != [] && unseen != [] && Newer(events, v.renderedSeq) == unseen && Sorted(unseen) == unseen
    requires v.placeholder <==> v.cards == []
    ensures Update(v, events) == View(Reverse(unseen) + v.cards, false, events[|events| - 1].number)
  {
  }

  lemma UpdateAdds(h: seq<DemoEvent>, lo: nat, b: nat, v: View)
    requires Contiguous(h) && lo < b <= |h| && v.renderedSeq < b
    requires v.placeholder <==> v.cards == []
    ensures Update(v, h[lo..b]) == View(Reverse(h[FirstNew(lo, v.renderedSeq)..b]) + v.cards, false, b)
  {
    var first := FirstNew(lo, v.renderedSeq);
    NewerOfRange(h, lo, b, v.renderedSeq);
    SortedRange(h, first, b);
    UpdateIs(v, h[lo..b], h[first..b]);
  }

  lemma StackedOnTop(h: seq<DemoEvent>, lo: nat, b: nat, cards: seq<DemoEvent>)
    requires Contiguous(h) && lo < b <= |h|
    requires StrictlyDecreasing(cards) && (cards != [] ==> cards[0].number <= lo)
    ensures var all := Reverse(h[lo..b]) + cards;
            StrictlyDecreasing(all) && all != [] && all[0].number == b
  {
    ReversedRangeNumbers(h, lo, b);
    assert forall k :: 0 <= k < |cards| ==> cards[k].number <= lo;
  }

  /** The overlap of a snapshot with what is shown is on top of the log already. */
  lemma OverlapShown(h: seq<DemoEvent>, g: nat, lo: nat, r: nat, b: nat, cards: seq<DemoEvent>)
    requires lo < b <= |h| && r < b
    requires lo < r ==> g <= lo && Reverse(h[g..r]) <= cards
    ensures Reverse(h[lo..b]) <= Reverse(h[FirstNew(lo, r)..b]) + cards
  {
    if lo < r {
      ReverseRange(h, lo, r, b);
      ReverseRange(h, g, lo, r);
    }
  }

  /** A consistent log whose top is the snapshot `snap` that ends with event `b`. */
  ghost predicate Shows(v: View, snap: seq<DemoEvent>, b: nat) {
    Consistent(v) && v.cards != [] && v.renderedSeq == b && Reverse(snap) <= v.cards
  }

  lemma NewerShows(h: seq<DemoEvent>, g: nat, lo: nat, b: nat, v: View)
    requires Contiguous(h) && lo < b <= |h| && v.renderedSeq < b && Consistent(v)
    requires lo < v.renderedSeq ==> g <= lo && Reverse(h[g..v.renderedSeq]) <= v.cards
    ensures Shows(View(Reverse(h[FirstNew(lo, v.renderedSeq)..b]) + v.cards, false, b), h[lo..b], b)
  {
    StackedOnTop(h, FirstNew(lo, v.renderedSeq), b, v.cards);
    OverlapShown(h, g, lo, v.renderedSeq, b, v.cards);
  }

  /** A snapshot that ends beyond the top card adds exactly the missing events, and then shows in full. */
  lemma DeliverNewer(p: Past, v: View, b: nat)
    requires PastOk(p) && ViewOk(p, v) && 1 <= b <= |p.history| && v.renderedSeq < b
    ensures Shows(Update(v, SnapshotAt(p, b)), SnapshotAt(p, b), b)
  {
    var g := if v.cards == [] then 0 else Floor(p, v.renderedSeq);
    NewerShows(p.history, g, Floor(p, b), b, v);
    UpdateAdds(p.history, Floor(p, b), b, v);
  }

  lemma DeliverOlder(p: Past, v: View, b: nat)
    requires PastOk(p) && 1 <= b <= |p.history| && b <= v.renderedSeq
    ensures Update(v, SnapshotAt(p, b)) == v
  {
    NewerOfRange(p.history, Floor(p, b), b, v.renderedSeq);
  }

  /** What a delivery does to the log, in the page's own terms. */
  ghost predicate Delivered(before: View, snap: seq<DemoEvent>, after: View) {
    if snap == [] then after == EMPTY_VIEW
    else if snap[|snap| - 1].number < before.renderedSeq then after == before
    else Shows(after, snap, snap[|snap| - 1].number)
  }

  lemma UpdateDelivers(p: Past, v: View, snap: seq<DemoEvent>)
    requires PastOk(p) && ViewOk(p, v) && IsSnapshot(p, snap)
    ensures Delivered(v, snap, Update(v, snap))
  {
    if snap != [] {
      var b: nat :| 1 <= b <= |p.history| && snap == SnapshotAt(p, b);
      if b <= v.renderedSeq {
        DeliverOlder(p, v, b);
      } else {
        DeliverNewer(p, v, b);
      }
    }
  }

  lemma DeliveredIsOk(p: Past, before: View, snap: seq<DemoEvent>, after: View)
    requires PastOk(p) && ViewOk(p, before) && IsSnapshot(p, snap) && Delivered(before, snap, after)
    ensures ViewOk(p, after)
  {
    if snap != [] {
      var b: nat :| 1 <= b <= |p.history| && snap == SnapshotAt(p, b);
    }
  }

  lemma InFlightWithout(p: Past, inFlight: seq<seq<DemoEvent>>, i: nat)
    requires PastOk(p) && InFlightOk(p, inFlight) && i < |inFlight|
    ensures InFlightOk(p, Without(inFlight, i)) && IsSnapshot(p, inFlight[i])
  {
    var rest := Without(inFlight, i);
    forall k | 0 <= k < |rest| ensures IsSnapshot(p, rest[k]) {
      assert rest[k] == inFlight[if k < i then k else k + 1];
    }
  }

  lemma DeliverKeepsInv(s: System, i: nat)
    requires Inv(s) && i < |s.inFlight|
    ensures Inv(Step(s, Deliver(i)))
  {
    InFlightWithout(s.past, s.inFlight, i);
    UpdateDelivers(s.past, s.view, s.inFlight[i]);
    DeliveredIsOk(s.past, s.view, s.inFlight[i], Update(s.view, s.inFlight[i]));
  }

  lemma PollKeepsInFlight(p: Past, inFlight: seq<seq<DemoEvent>>, b: Buffer)
    requires PastOk(p) && InFlightOk(p, inFlight) && BufferOk(p, b)
    ensures InFlightOk(p, inFlight + [b.events])
  {
    assert IsSnapshot(p, b.events);
  }

  lemma StepKeepsInv(s: System, a: Action)
    requires Inv(s)
    ensures Inv(Step(s, a))
  {
    match a
    case Ingest(t) => IngestKeepsInv(s, t);
    case ClearServer =>
    case Poll => PollKeepsInFlight(s.past, s.inFlight, s.buffer);
    case Deliver(i) => if i < |s.inFlight| { DeliverKeepsInv(s, i); }
    case Lose(i) => if i < |s.inFlight| { InFlightWithout(s.past, s.inFlight, i); }
    case ClearPage =>
  }

  lemma {:induction false} RunKeepsInv(s: System, actions: seq<Action>)
    requires Inv(s)
    ensures Inv(Run(s, actions))
    decreases |actions|
  {
    if actions != [] {
      StepKeepsInv(s, actions[0]);
      RunKeepsInv(Step(s, actions[0]), actions[1..]);
    }
  }

  // ---------------------------------------------------------------- main results

  /** Under any interleaving of adds, clears, polls in flight and reordered or lost deliveries, the log's
      cards are strictly decreasing and renderedSeq is the top card's number, or 0 when there is none. */
  lemma LogAlwaysConsistent(actions: seq<Action>)
    ensures var v := Run(INITIAL, actions).view;
            StrictlyDecreasing(v.cards) && TopIsRendered(v) && (v.placeholder <==> v.cards == [])
  {
    RunKeepsInv(INITIAL, actions);
  }

  /** Delivering a snapshot that is not older than the log makes it the top of the log, card for card. An
      older one changes nothing, and an empty one empties the log. */
  lemma DeliveryShowsSnapshot(actions: seq<Action>, i: nat)
    requires i < |Run(INITIAL, actions).inFlight|
    ensures var s := Run(INITIAL, actions);
            Delivered(s.view, s.inFlight[i], Step(s, Deliver(i)).view)
  {
    RunKeepsInv(INITIAL, actions);
    var s := Run(INITIAL, actions);
    InFlightWithout(s.past, s.inFlight, i);
    UpdateDelivers(s.past, s.view, s.inFlight[i]);
  }

  lemma BufferSnapshotIsCurrent(p: Past, b: Buffer, v: View)
    requires PastOk(p) && BufferOk(p, b) && ViewOk(p, v)
    ensures IsSnapshot(p, b.events)
    ensures b.events != [] ==> b.events[|b.events| - 1].number >= v.renderedSeq
  {
  }

  lemma PollThenDeliver(s: System)
    ensures Step(Step(s, Poll), Deliver(|s.inFlight|)).view == Update(s.view, s.buffer.events)
  {
    assert (s.inFlight + [s.buffer.events])[|s.inFlight|] == s.buffer.events;
  }

  /** A poll that is answered at once makes the log show the whole buffer. */
  lemma FreshPollShowsBuffer(actions: seq<Action>)
    ensures var s := Run(INITIAL, actions);
            var v := Step(Step(s, Poll), Deliver(|s.inFlight|)).view;
            var events := s.buffer.events;
            if events == [] then v == EMPTY_VIEW else Shows(v, events, events[|events| - 1].number)
  {
    RunKeepsInv(INITIAL, actions);
    var s := Run(INITIAL, actions);
    BufferSnapshotIsCurrent(s.past, s.buffer, s.view);
    UpdateDelivers(s.past, s.view, s.buffer.events);
    PollThenDeliver(s);
  }

  // ---------------------------------------------------------------- what each party does

  lemma {:induction false} RunNext(s: System, actions: seq<Action>, a: Action)
    ensures Run(s, actions + [a]) == Step(Run(s, actions), a)
    decreases |actions|
  {
    if actions == [] {
      assert actions + [a] == [a] && [a][1..] == [];
    } else {
      assert (actions + [a])[1..] == actions[1..] + [a];
      RunNext(Step(s, actions[0]), actions[1..], a);
    }
  }

  /** What the server is told. */
  function ServerOps(actions: seq<Action>): seq<Op> {
    if actions == [] then []
    else
      var n := |actions| - 1;
      ServerOps(actions[..n]) + (match actions[n] case Ingest(t) => [Op.Add(t)] case ClearServer => [Op.Clear] case _ => [])
  }

  lemma AfterOneMore(ops: seq<Op>, op: Op)
    ensures AfterOps(ops + [op]) == match op case Add(t) => Added(AfterOps(ops), t) case Clear => Cleared(AfterOps(ops))
  {
    assert (ops + [op])[..|ops|] == ops;
  }

  /** The server keeps what the store keeps under the same reports and clears; polls, pages and the network do
      not touch it. */
  lemma {:induction false} ServerIsStore(actions: seq<Action>)
    ensures Run(INITIAL, actions).buffer == AfterOps(ServerOps(actions))
    decreases |actions|
  {
    if actions != [] {
      var n := |actions| - 1;
      var before := actions[..n];
      assert actions == before + [actions[n]];
      ServerIsStore(before);
      RunNext(INITIAL, before, actions[n]);
      match actions[n] {
        case Ingest(t) => AfterOneMore(ServerOps(before), Op.Add(t));
        case ClearServer => AfterOneMore(ServerOps(before), Op.Clear);
        case _ => assert ServerOps(actions) == ServerOps(before) + [] == ServerOps(before);
      }
    }
  }

  /** Every response in flight is the buffer at the time of some poll. */
  lemma {:induction false} ResponsesArePolls(actions: seq<Action>, i: nat)
    requires i < |Run(INITIAL, actions).inFlight|
    ensures exists k :: 0 <= k < |actions| && actions[k] == Poll
                        && Run(INITIAL, actions).inFlight[i] == Run(INITIAL, actions[..k]).buffer.events
    decreases |actions|
  {
    var n := |actions| - 1;
    var before := actions[..n];
    assert actions == before + [actions[n]];
    RunNext(INITIAL, before, actions[n]);
    var s := Run(INITIAL, before);
    if actions[n] == Poll && i == |s.inFlight| {
      assert actions[..n] == before;
    } else {
      var j := if (actions[n].Deliver? || actions[n].Lose?) && actions[n].index < |s.inFlight| && i >= actions[n].index then i + 1 else i;
      ResponsesArePolls(before, j);
      var k :| 0 <= k < |before| && before[k] == Poll && s.inFlight[j] == Run(INITIAL, before[..k]).buffer.events;
      assert actions[k] == Poll && actions[..k] == before[..k];
    }
  }

  /** A poll puts one response in flight, a delivery or a loss takes that one out, and nothing else changes
      what is in flight. */
  lemma InFlightChanges(s: System, a: Action)
    ensures multiset(Step(s, a).inFlight) ==
            match a
            case Poll => multiset(s.inFlight) + multiset{s.buffer.events}
            case Deliver(i) => if i < |s.inFlight| then multiset(s.inFlight) - multiset{s.inFlight[i]} else multiset(s.inFlight)
            case Lose(i) => if i < |s.inFlight| then multiset(s.inFlight) - multiset{s.inFlight[i]} else multiset(s.inFlight)
            case _ => multiset(s.inFlight)
  {
    if (a.Deliver? || a.Lose?) && a.index < |s.inFlight| {
      assert s.inFlight == s.inFlight[..a.index] + [s.inFlight[a.index]] + s.inFlight[a.index + 1..];
    }
  }

  /** Only a delivery and the page's own button change the page. */
  lemma PageWaits(s: System, a: Action)
    requires !a.Deliver? && !a.ClearPage?
    ensures Step(s, a).view == s.view
  {
  }

  /** The button empties the page; a poll answered at once then shows exactly the buffer, newest first. */
  lemma ClearedPageShowsBuffer(actions: seq<Action>)
    ensures var s := Run(INITIAL, actions + [ClearPage]);
            var v := Step(Step(s, Poll), Deliver(|s.inFlight|)).view;
            s.view.cards == [] && s.view.renderedSeq == 0 && s.view.placeholder
            && |v.cards| == |s.buffer.events|
            && forall i :: 0 <= i < |v.cards| ==> v.cards[i] == s.buffer.events[|v.cards| - 1 - i]
  {
    RunNext(INITIAL, actions, ClearPage);
    RunKeepsInv(INITIAL, actions + [ClearPage]);
    var s := Run(INITIAL, actions + [ClearPage]);
    PollThenDeliver(s);
    BufferSnapshotIsCurrent(s.past, s.buffer, s.view);
    SnapshotAscends(s.past, s.buffer.events);
    EmptyPageShows(s.buffer.events);
  }

  lemma SnapshotAscends(p: Past, snap: seq<DemoEvent>)
    requires PastOk(p) && IsSnapshot(p, snap)
    ensures forall i, j :: 0 <= i < j < |snap| ==> snap[i].number < snap[j].number
    ensures forall i :: 0 <= i < |snap| ==> snap[i].number > 0
  {
  }

  lemma EmptyPageShows(events: seq<DemoEvent>)
    requires forall i, j :: 0 <= i < j < |events| ==> events[i].number < events[j].number
    requires forall i :: 0 <= i < |events| ==> events[i].number > 0
    ensures var cards := Update(EMPTY_VIEW, events).cards;
            |cards| == |events| && forall i :: 0 <= i < |cards| ==> cards[i] == events[|cards| - 1 - i]
  {
    KeepAll(events, (e: DemoEvent) => e.number > 0);
    SortedAlready(events);
    forall i | 0 <= i < |events| ensures Reverse(events)[i] == events[|events| - 1 - i] { ReverseAt(events, i); }
  }
}

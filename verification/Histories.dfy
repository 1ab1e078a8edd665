/** The log of a run: whose operations it holds, how often and in what order. */
module Histories {
  import opened Prelude
  import opened Tables
  import opened Api
  import opened Concurrency
  import opened Steps
  import opened Runs
  import opened Linearization

  lemma {:induction false} HistoryFresh(c: Config, l: Ledger, events: seq<Event>)
    requires Agrees(c, l)
    ensures forall a :: a in History(c, events) && !a.req.ClearData? ==> a.tid !in l.replies
    ensures forall i, j :: 0 <= i < j < |History(c, events)| && !History(c, events)[j].req.ClearData? ==>
              History(c, events)[i].tid != History(c, events)[j].tid || History(c, events)[i].req.ClearData?
    decreases |events|
  {
    if events != [] {
      var now := Effects(c, events[0]);
      EffectIsFirst(c, l, events[0]);
      EventAgrees(c, l, events[0]);
      HistoryFresh(Next(c, events[0]), SerialRun(l, now), events[1..]);
    }
  }

  lemma {:induction false} HistoryIsOfThreads(c: Config, events: seq<Event>)
    ensures forall tid :: tid in c.threads ==> tid in Run(c, events).threads && Run(c, events).threads[tid].req == c.threads[tid].req
    ensures forall a :: a in History(c, events) ==> a.tid in Run(c, events).threads && Run(c, events).threads[a.tid].req == a.req
    ensures forall a :: a in History(c, events) && a.tid in c.threads ==> c.threads[a.tid].Running?
    decreases |events|
  {
    if events != [] {
      HistoryIsOfThreads(Next(c, events[0]), events[1..]);
      StepKeepsRequest(c, events[0]);
    }
  }

  // ---------------------------------------------------------------- wipes

  /** The stages of a request's entries in the log, in order. */
  function Stages(log: seq<Atom>, tid: Tid): seq<Pc> {
    if log == [] then [] else (if log[0].tid == tid then [log[0].pc] else []) + Stages(log[1..], tid)
  }

  lemma {:induction false} StagesConcat(a: seq<Atom>, b: seq<Atom>, tid: Tid)
    ensures Stages(a + b, tid) == Stages(a, tid) + Stages(b, tid)
    decreases |a|
  {
    if a == [] {
      assert a + b == b;
    } else {
      assert (a + b)[1..] == a[1..] + b;
      StagesConcat(a[1..], b, tid);
      var head := if a[0].tid == tid then [a[0].pc] else [];
      assert Stages(a + b, tid) == head + (Stages(a[1..], tid) + Stages(b, tid));
      assert Stages(a, tid) == head + Stages(a[1..], tid);
    }
  }

  lemma StagesOne(a: Atom, tid: Tid)
    ensures Stages([a], tid) == if a.tid == tid then [a.pc] else []
  {
    assert [a][1..] == [];
  }

  /** The deletes that a wipe has behind it. */
  function WipedSoFar(th: Thread): seq<Pc> {
    match th
    case Running(_, DropUsers) => [Check]
    case Running(_, DropGroups) => [Check, DropUsers]
    case Running(_, _) => []
    case Done(_, _) => [Check, DropUsers, DropGroups]
  }

  /** One delete of a wipe. */
  lemma WipeCall(c: Config, e: Event)
    requires e.Advance? && Enabled(c, e) && c.threads[e.tid].req.ClearData? && OnTrack(c.threads[e.tid].req, c.threads[e.tid].pc)
    ensures var th := c.threads[e.tid];
            Effects(c, e) == [Atom(e.tid, th.req, th.pc, e.newId)]
            && WipedSoFar(Next(c, e).threads[e.tid]) == WipedSoFar(th) + [th.pc]
  {
  }

  /** Other events leave the wipe and its entries alone. */
  lemma WipeWaits(c: Config, e: Event, tid: Tid)
    requires tid in Next(c, e).threads && !(e.Advance? && Enabled(c, e) && e.tid == tid)
    ensures tid in c.threads ==> Next(c, e).threads[tid] == c.threads[tid]
    ensures tid !in c.threads ==> Next(c, e).threads[tid].Running? && Next(c, e).threads[tid].pc == Check
    ensures Stages(Effects(c, e), tid) == []
  {
    if e.Advance? && Enabled(c, e) {
      StagesOne(Atom(e.tid, c.threads[e.tid].req, c.threads[e.tid].pc, e.newId), tid);
    }
  }

  lemma WipeAdvances(c: Config, e: Event, tid: Tid)
    requires tid in Next(c, e).threads && Next(c, e).threads[tid].req.ClearData?
    requires tid in c.threads && c.threads[tid].Running? ==> OnTrack(c.threads[tid].req, c.threads[tid].pc)
    ensures WipedSoFar(Next(c, e).threads[tid])
            == (if tid in c.threads then WipedSoFar(c.threads[tid]) else []) + Stages(Effects(c, e), tid)
  {
    StepKeepsRequest(c, e);
    if e.Advance? && Enabled(c, e) && e.tid == tid {
      WipeCall(c, e);
      StagesOne(Effects(c, e)[0], tid);
    } else {
      WipeWaits(c, e, tid);
    }
  }

  /** Each delete that a wipe has made is in the log once, in order; a finished wipe has its three. */
  lemma {:induction false} WipeInStages(db: Database, events: seq<Event>, tid: Tid)
    requires Valid(db)
    ensures var log, threads := SerialLog(db, events), After(db, events).threads;
      && (tid !in threads ==> Stages(log, tid) == [])
      && (tid in threads && threads[tid].req.ClearData? ==> Stages(log, tid) == WipedSoFar(threads[tid]))
    decreases |events|
  {
    if events != [] {
      var before, e := events[..|events| - 1], events[|events| - 1];
      var c := After(db, before);
      assert events == before + [e];
      OneMore(db, before, e);
      RunFromStartAgrees(db, before);
      WipeInStages(db, before, tid);
      StagesConcat(SerialLog(db, before), Effects(c, e), tid);
      StepKeepsRequest(c, e);
      assert tid in c.threads ==> ThreadAgrees(c, SerialAfter(db, before), tid);
      if tid in Next(c, e).threads && Next(c, e).threads[tid].req.ClearData? {
        WipeAdvances(c, e, tid);
      }
    }
  }

  // ---------------------------------------------------------------- the log

  /** Every operation of the log is of a request that arrived; a request other than a wipe takes effect
      at most once, and one that has finished exactly once. A finished wipe has its three deletes there,
      each once and in order. */
  lemma EffectsOnce(db: Database, events: seq<Event>)
    requires Valid(db)
    ensures var log, threads := SerialLog(db, events), After(db, events).threads;
      && (forall a :: a in log ==> a.tid in threads && threads[a.tid].req == a.req)
      && (forall i, j :: 0 <= i < j < |log| && log[i].tid == log[j].tid ==> log[i].req.ClearData?)
      && (forall tid :: tid in threads && threads[tid].Done? && !threads[tid].req.ClearData? ==> exists a :: a in log && a.tid == tid)
      && (forall tid :: tid in threads && threads[tid].Done? && threads[tid].req.ClearData? ==>
            Stages(log, tid) == [Check, DropUsers, DropGroups])
  {
    StartAgrees(db);
    HistoryIsOfThreads(Start(db), events);
    HistoryFresh(Start(db), Ledger(db, map[]), events);
    Refinement(db, events);
    var log, threads := SerialLog(db, events), After(db, events).threads;
    RepliesComeFromLog(Ledger(db, map[]), log);
    forall i, j | 0 <= i < j < |log| && log[i].tid == log[j].tid ensures log[i].req.ClearData? {
      assert log[i] in log && log[j] in log;
    }
    forall tid | tid in threads && threads[tid].Done? && threads[tid].req.ClearData?
      ensures Stages(log, tid) == [Check, DropUsers, DropGroups]
    {
      WipeInStages(db, events, tid);
    }
  }

  lemma {:induction false} RepliesComeFromLog(l: Ledger, log: seq<Atom>)
    ensures forall tid :: tid in SerialRun(l, log).replies ==> tid in l.replies || exists a :: a in log && a.tid == tid
    decreases |log|
  {
    if log != [] {
      RepliesComeFromLog(SerialStep(l, log[0]), log[1..]);
      forall tid | tid in SerialRun(l, log).replies && tid !in l.replies ensures exists a :: a in log && a.tid == tid {
        if tid in SerialStep(l, log[0]).replies {
          assert log[0] in log;
        } else {
          var a :| a in log[1..] && a.tid == tid;
          assert a in log;
        }
      }
    }
  }

  /** The serial order respects real time: what a request that finished before another arrived did
      comes before anything the other does. */
  lemma RealTimeOrder(db: Database, before: seq<Event>, after: seq<Event>, a: Tid, b: Tid)
    requires a in After(db, before).threads && After(db, before).threads[a].Done?
    requires b !in After(db, before).threads
    ensures var log := SerialLog(db, before + after);
      forall i, j :: 0 <= i < |log| && 0 <= j < |log| && log[i].tid == a && log[j].tid == b ==> i < j
  {
    HistoryConcat(Start(db), before, after);
    HistoryIsOfThreads(Start(db), before);
    HistoryIsOfThreads(After(db, before), after);
    var first, second := SerialLog(db, before), History(After(db, before), after);
    var log := SerialLog(db, before + after);
    assert log == first + second;
    assert forall k :: 0 <= k < |first| ==> log[k] in first;
    assert forall k :: |first| <= k < |log| ==> log[k] in second;
  }
}

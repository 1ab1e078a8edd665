/** Events and runs: what the tables and the threads of a run owe to the serial run of its log. */
module Runs {
  import opened Prelude
  import opened Tables
  import opened Resources
  import opened Api
  import opened SerialCalls
  import opened Concurrency
  import opened Steps

  // ---------------------------------------------------------------- one event

  lemma StepKeepsRequest(c: Config, e: Event)
    ensures forall tid :: tid in c.threads ==> tid in Next(c, e).threads && Next(c, e).threads[tid].req == c.threads[tid].req
    ensures forall tid :: tid in c.threads && c.threads[tid].Done? ==> Next(c, e).threads[tid] == c.threads[tid]
  {
  }

  lemma SerialRunOne(l: Ledger, a: Atom)
    ensures SerialRun(l, [a]) == SerialStep(l, a)
  {
    assert [a][1..] == [];
  }

  /** What the other threads claim is not disturbed by a step. */
  lemma OthersAgree(c: Config, l: Ledger, e: Event, l': Ledger, other: Tid)
    requires Agrees(c, l) && e.Advance? && Enabled(c, e)
    requires forall t :: t != e.tid ==> (t in l'.replies <==> t in l.replies) && (t in l.replies ==> l'.replies[t] == l.replies[t])
    requires other in c.threads && other != e.tid
    ensures ThreadAgrees(Next(c, e), l', other)
  {
    StepIds(c.db, e.newId, c.threads[e.tid].req, c.threads[e.tid].pc);
    assert ThreadAgrees(c, l, other);
  }

  lemma WipesValid(db: Database)
    requires Valid(db)
    ensures Valid(WipeMembers(db)) && Valid(WipeUsers(db)) && Valid(WipeGroups(db))
  {
  }

  /** A step of a wipe does what the log's entry does. */
  lemma WipeStep(db: Database, newId: Id, req: Request, pc: Pc, l: Ledger, tid: Tid)
    requires req.ClearData? && OnTrack(req, pc) && l.db == db
    ensures var (db', th) := StepThread(db, newId, req, pc);
            var l' := SerialStep(l, Atom(tid, req, pc, newId));
      && l'.db == db' && l'.replies == l.replies && IdsOf(db') <= IdsOf(db)
      && th.req == req && (th.Running? ==> OnTrack(req, th.pc) && th.pc != Reread)
      && (th.Done? ==> th.response == Success(204, NoBody))
      && db' in {WipeMembers(db), WipeUsers(db), WipeGroups(db)}
  {
  }

  lemma WipeAgrees(c: Config, l: Ledger, e: Event)
    requires Agrees(c, l) && e.Advance? && Enabled(c, e) && c.threads[e.tid].req.ClearData?
    ensures Agrees(Next(c, e), SerialRun(l, Effects(c, e)))
  {
    var th := c.threads[e.tid];
    assert ThreadAgrees(c, l, e.tid);
    var l' := SerialStep(l, Atom(e.tid, th.req, th.pc, e.newId));
    SerialRunOne(l, Atom(e.tid, th.req, th.pc, e.newId));
    WipeStep(c.db, e.newId, th.req, th.pc, l, e.tid);
    WipesValid(c.db);
    assert Effects(c, e) == [Atom(e.tid, th.req, th.pc, e.newId)];
    assert ThreadAgrees(Next(c, e), l', e.tid);
    forall other | other in c.threads && other != e.tid ensures ThreadAgrees(Next(c, e), l', other) {
      OthersAgree(c, l, e, l', other);
    }
  }

  lemma RequestAgrees(c: Config, l: Ledger, e: Event)
    requires Agrees(c, l) && e.Advance? && Enabled(c, e) && !c.threads[e.tid].req.ClearData?
    ensures Agrees(Next(c, e), SerialRun(l, Effects(c, e)))
  {
    var th := c.threads[e.tid];
    var c' := Next(c, e);
    var a := Atom(e.tid, th.req, th.pc, e.newId);
    assert ThreadAgrees(c, l, e.tid);
    SerialStatuses(c.db, e.newId, th.req);
    SerialValid(c.db, e.newId, th.req);
    StepIds(c.db, e.newId, th.req, th.pc);
    match th.pc {
      case Check => CheckStep(c.db, e.newId, th.req);
      case Write =>
        if ReadsAgain(th.req) {
          WriteStepOfGroup(c.db, e.newId, th.req);
        } else {
          WriteStepLinearizes(c.db, e.newId, th.req);
        }
      case _ =>
    }
    SerialRunOne(l, a);
    var l' := SerialRun(l, Effects(c, e));
    assert Effects(c, e) == [a] || Effects(c, e) == [];
    assert ThreadAgrees(c', l', e.tid);
    forall other | other in c.threads && other != e.tid ensures ThreadAgrees(c', l', other) {
      OthersAgree(c, l, e, l', other);
    }
  }

  lemma EventAgrees(c: Config, l: Ledger, e: Event)
    requires Agrees(c, l)
    ensures Agrees(Next(c, e), SerialRun(l, Effects(c, e)))
  {
    if !Enabled(c, e) {
    } else if e.Arrive? {
      forall tid | tid in c.threads ensures ThreadAgrees(Next(c, e), l, tid) {
        assert ThreadAgrees(c, l, tid);
      }
    } else if c.threads[e.tid].req.ClearData? {
      WipeAgrees(c, l, e);
    } else {
      RequestAgrees(c, l, e);
    }
  }

  lemma {:induction false} SerialRunConcat(l: Ledger, s: seq<Atom>, t: seq<Atom>)
    ensures SerialRun(l, s + t) == SerialRun(SerialRun(l, s), t)
    decreases |s|
  {
    if s == [] {
      assert s + t == t;
    } else {
      assert (s + t)[1..] == s[1..] + t;
      SerialRunConcat(SerialStep(l, s[0]), s[1..], t);
    }
  }

  lemma {:induction false} RunAgrees(c: Config, l: Ledger, events: seq<Event>)
    requires Agrees(c, l)
    ensures Agrees(Run(c, events), SerialRun(l, History(c, events)))
    decreases |events|
  {
    if events != [] {
      var l' := SerialRun(l, Effects(c, events[0]));
      EventAgrees(c, l, events[0]);
      RunAgrees(Next(c, events[0]), l', events[1..]);
      SerialRunConcat(l, Effects(c, events[0]), History(Next(c, events[0]), events[1..]));
    }
  }

  lemma StartAgrees(db: Database)
    requires Valid(db)
    ensures Agrees(Start(db), Ledger(db, map[]))
  {
  }

  // ---------------------------------------------------------------- runs from the start

  function After(db: Database, events: seq<Event>): Config {
    Run(Start(db), events)
  }

  function SerialLog(db: Database, events: seq<Event>): seq<Atom> {
    History(Start(db), events)
  }

  function SerialAfter(db: Database, events: seq<Event>): Ledger {
    SerialRun(Ledger(db, map[]), SerialLog(db, events))
  }

  lemma {:induction false} RunConcat(c: Config, s: seq<Event>, t: seq<Event>)
    ensures Run(c, s + t) == Run(Run(c, s), t)
    decreases |s|
  {
    if s == [] {
      assert s + t == t;
    } else {
      assert (s + t)[1..] == s[1..] + t;
      RunConcat(Next(c, s[0]), s[1..], t);
    }
  }

  lemma Regroup(x: seq<Atom>, y: seq<Atom>, z: seq<Atom>)
    ensures x + (y + z) == (x + y) + z
  {
  }

  lemma {:induction false} HistoryConcat(c: Config, s: seq<Event>, t: seq<Event>)
    ensures History(c, s + t) == History(c, s) + History(Run(c, s), t)
    decreases |s|
  {
    if s == [] {
      assert s + t == t;
    } else {
      var c1 := Next(c, s[0]);
      assert (s + t)[1..] == s[1..] + t;
      HistoryConcat(c1, s[1..], t);
      Regroup(Effects(c, s[0]), History(c1, s[1..]), History(Run(c, s), t));
    }
  }

  /** A run with one more event. */
  lemma OneMore(db: Database, before: seq<Event>, e: Event)
    ensures After(db, before + [e]) == Next(After(db, before), e)
    ensures SerialLog(db, before + [e]) == SerialLog(db, before) + Effects(After(db, before), e)
    ensures SerialAfter(db, before + [e]) == SerialRun(SerialAfter(db, before), Effects(After(db, before), e))
  {
    RunConcat(Start(db), before, [e]);
    HistoryConcat(Start(db), before, [e]);
    assert [e][1..] == [];
    assert Run(After(db, before), [e]) == Run(Next(After(db, before), e), []);
    assert History(After(db, before), [e]) == Effects(After(db, before), e) + History(Next(After(db, before), e), []);
    SerialRunConcat(Ledger(db, map[]), SerialLog(db, before), Effects(After(db, before), e));
  }

  lemma RunFromStartAgrees(db: Database, events: seq<Event>)
    requires Valid(db)
    ensures Agrees(After(db, events), SerialAfter(db, events))
  {
    StartAgrees(db);
    RunAgrees(Start(db), Ledger(db, map[]), events);
  }
}

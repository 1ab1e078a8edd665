/** The calls of one request: how many there are, and what they amount to when nothing runs beside them. */
module LoneRequests {
  import opened Prelude
  import opened Tables
  import opened Resources
  import opened Api
  import opened SerialCalls
  import opened Concurrency
  import opened Steps
  import opened Runs
  import GroupPatch
  import GroupStore

  /** A call that ends its request in an error leaves all tables as they were. */
  lemma FailingStepKeepsTables(db: Database, newId: Id, req: Request, pc: Pc)
    ensures var (db', th) := StepThread(db, newId, req, pc);
            th.Done? && th.response.Failure? ==> db' == db
  {
  }

  /** A group patch that changes nothing opens no transaction: its check is followed by its re-read. */
  lemma IdlePatchOnlyReads(db: Database, id: Id, newId: Id)
    requires id in db.groups.rows
    ensures var req := PatchGroup(id, GroupPatch.NO_PATCH);
            StepThread(db, newId, req, Check) == (db, Running(req, Reread))
  {
    assert GroupStore.PatchStmts(id, GroupPatch.NO_PATCH) == [];
  }

  /** The calls a thread can still make. */
  function Remaining(th: Thread): nat {
    match th
    case Done(_, _) => 0
    case Running(_, Check) => 3
    case Running(_, Write) => 2
    case Running(_, Reread) => 1
    case Running(_, DropUsers) => 2
    case Running(_, DropGroups) => 1
  }

  /** How many calls the request makes during the events. */
  function OwnCalls(c: Config, events: seq<Event>, tid: Tid): nat
    decreases |events|
  {
    if events == [] then 0
    else (if events[0].Advance? && events[0].tid == tid && Enabled(c, events[0]) then 1 else 0)
         + OwnCalls(Next(c, events[0]), events[1..], tid)
  }

  lemma CallMakesProgress(c: Config, l: Ledger, e: Event)
    requires Agrees(c, l) && e.Advance? && Enabled(c, e)
    ensures Remaining(Next(c, e).threads[e.tid]) < Remaining(c.threads[e.tid])
  {
    assert ThreadAgrees(c, l, e.tid);
  }

  lemma {:induction false} CallsRunOut(c: Config, l: Ledger, events: seq<Event>, tid: Tid)
    requires Agrees(c, l) && tid in c.threads
    ensures tid in Run(c, events).threads
    ensures OwnCalls(c, events, tid) + Remaining(Run(c, events).threads[tid]) <= Remaining(c.threads[tid])
    decreases |events|
  {
    if events != [] {
      var e := events[0];
      EventAgrees(c, l, e);
      StepKeepsRequest(c, e);
      CallsRunOut(Next(c, e), SerialRun(l, Effects(c, e)), events[1..], tid);
      if e.Advance? && e.tid == tid && Enabled(c, e) {
        CallMakesProgress(c, l, e);
      }
    }
  }

  /** Whatever runs beside it, a request makes at most three calls, and with the third it has finished. */
  lemma FinishesInThreeCalls(db: Database, before: seq<Event>, after: seq<Event>, tid: Tid)
    requires Valid(db) && tid in After(db, before).threads
    ensures var calls := OwnCalls(After(db, before), after, tid);
            calls <= 3 && tid in After(db, before + after).threads
            && (calls == 3 ==> After(db, before + after).threads[tid].Done?)
  {
    RunFromStartAgrees(db, before);
    CallsRunOut(After(db, before), SerialAfter(db, before), after, tid);
    RunConcat(Start(db), before, after);
  }

  /** The configuration in which one request is alone. */
  function Alone(db: Database, issued: set<Id>, th: Thread): Config {
    Config(db, issued, map[0 := th])
  }

  lemma AloneStep(db: Database, issued: set<Id>, req: Request, pc: Pc, i: Id)
    requires i !in issued
    ensures var (db', th) := StepThread(db, i, req, pc);
            Next(Alone(db, issued, Running(req, pc)), Advance(0, i)) == Alone(db', issued + {i}, th)
  {
    var c := Alone(db, issued, Running(req, pc));
    assert c.threads[0 := StepThread(db, i, req, pc).1] == map[0 := StepThread(db, i, req, pc).1];
  }

  lemma AloneDone(c: Config, i: Id)
    requires 0 in c.threads && c.threads[0].Done?
    ensures Next(c, Advance(0, i)) == c
  {
  }

  /** The tables and the answer of a finished lone request. */
  ghost predicate Ends(c: Config, db: Database, reply: Reply) {
    0 in c.threads && c.threads[0].Done? && c.db == db && View(c.threads[0].response) == reply
  }

  lemma AloneWipe(db: Database, issued: set<Id>, i1: Id, i2: Id, i3: Id)
    requires i1 !in issued && i2 !in issued + {i1} && i3 !in issued + {i1} + {i2}
    ensures Ends(Next(Next(Next(Alone(db, issued, Running(ClearData, Check)), Advance(0, i1)), Advance(0, i2)), Advance(0, i3)),
                 EMPTY_DATABASE, Reply(204, None, NoBody))
  {
    AloneStep(db, issued, ClearData, Check, i1);
    AloneStep(WipeMembers(db), issued + {i1}, ClearData, DropUsers, i2);
    AloneStep(WipeUsers(WipeMembers(db)), issued + {i1} + {i2}, ClearData, DropGroups, i3);
  }

  lemma AloneReread(db: Database, issued: set<Id>, req: Request, i: Id)
    requires ReadsAgain(req) && i !in issued
    ensures Ends(Next(Alone(db, issued, Running(req, Reread)), Advance(0, i)), db, GroupOk(db, 200, req.id))
  {
    AloneStep(db, issued, req, Reread, i);
  }

  /** From its write on, a lone request ends as the serial request. */
  lemma AloneWrite(db: Database, issued: set<Id>, req: Request, i2: Id, i3: Id)
    requires Valid(db) && !req.ClearData? && !IllTyped(req) && IdsOf(db) <= issued
    requires ReadsAgain(req) ==> req.id in db.groups.rows
    requires i2 !in issued && i3 !in issued + {i2}
    ensures Ends(Next(Next(Alone(db, issued, Running(req, Write)), Advance(0, i2)), Advance(0, i3)),
                 Serial(db, i2, req).0, Serial(db, i2, req).1)
  {
    AloneStep(db, issued, req, Write, i2);
    var (db', th) := StepThread(db, i2, req, Write);
    var c := Alone(db', issued + {i2}, th);
    if ReadsAgain(req) {
      WriteStepOfGroup(db, i2, req);
      GroupWriteEnds(db, i2, req);
      if th.Running? {
        AloneReread(db', issued + {i2}, req, i3);
      } else {
        AloneDone(c, i3);
      }
    } else {
      WriteStepLinearizes(db, i2, req);
      AloneDone(c, i3);
    }
  }

  /** Three advances with nothing beside them finish a request as the serial specification says, and so as
      the service methods do. */
  lemma AloneIsSerial(db: Database, req: Request, i1: Id, i2: Id, i3: Id)
    requires Valid(db)
    requires i1 !in IdsOf(db) && i2 !in IdsOf(db) + {i1} && i3 !in IdsOf(db) + {i1} + {i2}
    ensures Ends(Next(Next(Next(Next(Start(db), Arrive(0, req)), Advance(0, i1)), Advance(0, i2)), Advance(0, i3)),
                 Serial(db, i2, req).0, Serial(db, i2, req).1)
  {
    assert Next(Start(db), Arrive(0, req)) == Alone(db, IdsOf(db), Running(req, Check));
    if req.ClearData? {
      AloneWipe(db, IdsOf(db), i1, i2, i3);
    } else {
      AloneStep(db, IdsOf(db), req, Check, i1);
      CheckStep(db, i2, req);
      var th := StepCheck(db, req).1;
      var c := Alone(db, IdsOf(db) + {i1}, th);
      if th.Done? {
        AloneDone(c, i2);
        AloneDone(c, i3);
      } else if th.pc == Write {
        AloneWrite(db, IdsOf(db) + {i1}, req, i2, i3);
      } else {
        AloneReread(db, IdsOf(db) + {i1}, req, i2);
        AloneDone(Next(c, Advance(0, i2)), i3);
        PatchGroupCall(db, req.id, req.patch);
      }
    }
  }
}

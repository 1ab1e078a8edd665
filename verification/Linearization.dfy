/** Every run against its serial run: the same tables, and the answers that follow from it. */
module Linearization {
  import opened Prelude
  import opened Tables
  import opened Resources
  import opened Api
  import opened Concurrency
  import opened Steps
  import opened Runs
  import Bodies

  /** A request takes effect only while the serial run has no reply for it. */
  lemma EffectIsFirst(c: Config, l: Ledger, e: Event)
    requires Agrees(c, l)
    ensures forall a :: a in Effects(c, e) && !a.req.ClearData? ==> a.tid !in l.replies && a.tid in SerialRun(l, Effects(c, e)).replies
    ensures |Effects(c, e)| <= 1
    ensures l.replies.Keys <= SerialRun(l, Effects(c, e)).replies.Keys
  {
    if Effects(c, e) != [] {
      assert ThreadAgrees(c, l, e.tid);
      SerialRunOne(l, Effects(c, e)[0]);
    }
  }

  /** A reply of the serial run is never overwritten. */
  lemma RepliesStay(c: Config, l: Ledger, e: Event)
    requires Agrees(c, l)
    ensures forall tid :: tid in l.replies ==>
              tid in SerialRun(l, Effects(c, e)).replies && SerialRun(l, Effects(c, e)).replies[tid] == l.replies[tid]
  {
    EffectIsFirst(c, l, e);
    if Effects(c, e) != [] {
      SerialRunOne(l, Effects(c, e)[0]);
    }
  }

  /** The `k`-th event is the final re-read of the request, after it took effect, and `r` shows the group
      as it is then, or 404 when it is gone. */
  ghost predicate ReadBack(db: Database, events: seq<Event>, tid: Tid, id: Id, r: Response, k: nat) {
    && k < |events|
    && events[k].Advance? && events[k].tid == tid
    && Enabled(After(db, events[..k]), events[k])
    && After(db, events[..k]).threads[tid].pc == Reread
    && tid in SerialAfter(db, events[..k]).replies
    && View(r) == GroupOk(After(db, events[..k]).db, 200, id)
  }

  /** What a re-read answers: the group's row and its members with their names, or 404. */
  lemma ReadBackShows(db: Database, events: seq<Event>, tid: Tid, id: Id, r: Response, k: nat)
    requires Valid(db) && ReadBack(db, events, tid, id, r, k)
    ensures var tables := After(db, events[..k]).db;
            if id in tables.groups.rows
            then View(r).status == 200 && View(r).scimType == None && Bodies.ShowsGroup(tables, View(r).body, id)
            else View(r) == Reply(404, None, NoBody)
  {
    RunFromStartAgrees(db, events[..k]);
    Bodies.GroupIsShown(After(db, events[..k]).db, 200, id);
  }

  /** How the answer of a finished group replace or patch comes about: it is the serial reply, or the
      patch lost the race with a deletion, or it is what the re-read found. */
  ghost predicate GroupAnswered(db: Database, events: seq<Event>, tid: Tid, req: Request, r: Response)
    requires ReadsAgain(req) && tid in SerialAfter(db, events).replies
  {
    || View(r) == SerialAfter(db, events).replies[tid]
    || LostRace(req, r, SerialAfter(db, events).replies[tid])
    || exists k: nat :: ReadBack(db, events, tid, req.id, r, k)
  }

  /** A request that ends without reading again. */
  lemma EndsBeforeReread(c: Config, l: Ledger, e: Event)
    requires Agrees(c, l) && e.Advance? && Enabled(c, e)
    requires ReadsAgain(c.threads[e.tid].req) && c.threads[e.tid].pc != Reread && Next(c, e).threads[e.tid].Done?
    ensures var l', th := SerialRun(l, Effects(c, e)), Next(c, e).threads[e.tid];
            e.tid in l'.replies
            && (View(th.response) == l'.replies[e.tid] || LostRace(th.req, th.response, l'.replies[e.tid]))
  {
    var req, pc := c.threads[e.tid].req, c.threads[e.tid].pc;
    assert ThreadAgrees(c, l, e.tid);
    SerialRunOne(l, Atom(e.tid, req, pc, e.newId));
    if pc == Check { CheckStep(c.db, e.newId, req); } else { GroupWriteEnds(c.db, e.newId, req); }
  }

  /** A request that ends by reading again. */
  lemma EndsWithReread(db: Database, before: seq<Event>, e: Event)
    requires Valid(db)
    requires e.Advance? && Enabled(After(db, before), e)
    requires ReadsAgain(After(db, before).threads[e.tid].req) && After(db, before).threads[e.tid].pc == Reread
    ensures var th := Next(After(db, before), e).threads[e.tid];
            th.Done? && ReadBack(db, before + [e], e.tid, th.req.id, th.response, |before|)
    ensures e.tid in SerialAfter(db, before + [e]).replies
  {
    var c, l := After(db, before), SerialAfter(db, before);
    OneMore(db, before, e);
    RunFromStartAgrees(db, before);
    assert ThreadAgrees(c, l, e.tid);
    assert (before + [e])[..|before|] == before;
  }

  lemma FinishesByOwnCall(c: Config, e: Event, tid: Tid)
    requires tid in Next(c, e).threads && Next(c, e).threads[tid].Done?
    requires !(tid in c.threads && c.threads[tid].Done?)
    ensures e.Advance? && e.tid == tid && Enabled(c, e) && Next(c, e).threads[tid].req == c.threads[tid].req
  {
  }

  /** The event that finishes a group replace or patch gives it such an answer. */
  lemma FinishingStep(db: Database, before: seq<Event>, e: Event, tid: Tid)
    requires Valid(db)
    requires tid in After(db, before + [e]).threads && After(db, before + [e]).threads[tid].Done?
    requires ReadsAgain(After(db, before + [e]).threads[tid].req)
    requires !(tid in After(db, before).threads && After(db, before).threads[tid].Done?)
    ensures var th := After(db, before + [e]).threads[tid];
            tid in SerialAfter(db, before + [e]).replies && GroupAnswered(db, before + [e], tid, th.req, th.response)
  {
    var c, l := After(db, before), SerialAfter(db, before);
    OneMore(db, before, e);
    RunFromStartAgrees(db, before);
    FinishesByOwnCall(c, e, tid);
    if c.threads[tid].pc == Reread {
      EndsWithReread(db, before, e);
    } else {
      EndsBeforeReread(c, l, e);
    }
  }

  /** A re-read, or a reply, stays on record when the run goes on. */
  lemma AnswerStays(db: Database, before: seq<Event>, e: Event, tid: Tid, req: Request, r: Response)
    requires Valid(db) && ReadsAgain(req)
    requires tid in SerialAfter(db, before).replies && GroupAnswered(db, before, tid, req, r)
    ensures tid in SerialAfter(db, before + [e]).replies && GroupAnswered(db, before + [e], tid, req, r)
  {
    OneMore(db, before, e);
    RunFromStartAgrees(db, before);
    RepliesStay(After(db, before), SerialAfter(db, before), e);
    if k: nat :| ReadBack(db, before, tid, req.id, r, k) {
      assert (before + [e])[..k] == before[..k];
      assert ReadBack(db, before + [e], tid, req.id, r, k);
    }
  }

  /** The exact answers of the requests that read again. */
  lemma {:induction false} AnswerOfGroupWrite(db: Database, events: seq<Event>, tid: Tid)
    requires Valid(db)
    requires tid in After(db, events).threads && After(db, events).threads[tid].Done?
    requires ReadsAgain(After(db, events).threads[tid].req)
    ensures var th := After(db, events).threads[tid];
            tid in SerialAfter(db, events).replies && GroupAnswered(db, events, tid, th.req, th.response)
    decreases |events|
  {
    if events != [] {
      var before, e := events[..|events| - 1], events[|events| - 1];
      assert events == before + [e];
      OneMore(db, before, e);
      if tid in After(db, before).threads && After(db, before).threads[tid].Done? {
        StepKeepsRequest(After(db, before), e);
        AnswerOfGroupWrite(db, before, tid);
        AnswerStays(db, before, e, tid, After(db, before).threads[tid].req, After(db, before).threads[tid].response);
      } else {
        FinishingStep(db, before, e, tid);
      }
    }
  }

  /** Every interleaving of any number of requests leaves the tables that the serial run of its log
      leaves. A finished user request, group creation or group deletion has the serial reply, and a
      finished group replace or patch has it too, or the answer of its re-read, or loses the race. */
  lemma Refinement(db: Database, events: seq<Event>)
    requires Valid(db)
    ensures After(db, events).db == SerialAfter(db, events).db
    ensures forall tid :: tid in After(db, events).threads && After(db, events).threads[tid].Done? ==>
              var th := After(db, events).threads[tid];
              !th.req.ClearData? ==>
                && tid in SerialAfter(db, events).replies
                && if ReadsAgain(th.req) then GroupAnswered(db, events, tid, th.req, th.response)
                   else View(th.response) == SerialAfter(db, events).replies[tid]
  {
    RunFromStartAgrees(db, events);
    var c, l := After(db, events), SerialAfter(db, events);
    forall tid | tid in c.threads && c.threads[tid].Done? && !c.threads[tid].req.ClearData?
      ensures tid in l.replies
      ensures if ReadsAgain(c.threads[tid].req) then GroupAnswered(db, events, tid, c.threads[tid].req, c.threads[tid].response)
              else View(c.threads[tid].response) == l.replies[tid]
    {
      assert ThreadAgrees(c, l, tid);
      if ReadsAgain(c.threads[tid].req) {
        AnswerOfGroupWrite(db, events, tid);
      }
    }
  }

  /** Every reachable state satisfies the schema's constraints, and every finished request whose values
      have the right types answers one of 200, 201, 204, 400, 404 and 409. */
  lemma ReachableSafe(db: Database, events: seq<Event>)
    requires Valid(db)
    ensures Valid(After(db, events).db)
    ensures forall tid :: tid in After(db, events).threads && After(db, events).threads[tid].Done?
              && !IllTyped(After(db, events).threads[tid].req)
              ==> View(After(db, events).threads[tid].response).status in STATUSES
  {
    RunFromStartAgrees(db, events);
    var c, l := After(db, events), SerialAfter(db, events);
    forall tid | tid in c.threads && c.threads[tid].Done? && !IllTyped(c.threads[tid].req)
      ensures View(c.threads[tid].response).status in STATUSES
    {
      assert ThreadAgrees(c, l, tid);
    }
  }
}

/** The race of a group patch with the deletion of its group, as runs. */
module Races {
  import opened Prelude
  import opened Tables
  import opened Resources
  import opened Api
  import opened SerialCalls
  import opened Concurrency
  import opened Steps
  import opened Runs
  import GroupPatch
  import GroupStore

  /** A group deletion in flight can make both its calls while other requests wait. */
  lemma DeleteSlipsIn(c: Config, tid: Tid, g: Id, i: Id, j: Id)
    requires tid in c.threads && c.threads[tid] == Running(RemoveGroup(g), Check) && g in c.db.groups.rows
    requires i !in c.issued && j !in c.issued + {i}
    ensures var c' := Next(Next(c, Advance(tid, i)), Advance(tid, j));
            c' == Config(GroupDelete(c.db, g).value, c.issued + {i, j}, c.threads[tid := Done(RemoveGroup(g), Success(204, NoBody))])
  {
    var c1 := Next(c, Advance(tid, i));
    assert c1 == Config(c.db, c.issued + {i}, c.threads[tid := Running(RemoveGroup(g), Write)]);
    assert Enabled(c1, Advance(tid, j));
    assert StepThread(c1.db, j, RemoveGroup(g), Write) == (GroupDelete(c.db, g).value, Done(RemoveGroup(g), Success(204, NoBody)));
    assert c.issued + {i} + {j} == c.issued + {i, j};
  }

  /** The lost race is reachable wherever a patch that only adds members has passed its check and a
      deletion of its group is in flight. */
  lemma PatchRaceReachable(c: Config, patch: Tid, delete: Tid, req: Request, i: Id, j: Id, k: Id)
    requires Valid(c.db) && patch in c.threads && delete in c.threads && patch != delete
    requires req.PatchGroup? && GroupPatch.Typed(req.patch) && !ChangesAttributes(req.patch) && req.patch.addIds != []
    requires req.id in c.db.groups.rows
    requires c.threads[patch] == Running(req, Write) && c.threads[delete] == Running(RemoveGroup(req.id), Check)
    requires i !in c.issued && j !in c.issued + {i} && k !in c.issued + {i, j}
    ensures var c' := Next(Next(Next(c, Advance(delete, i)), Advance(delete, j)), Advance(patch, k));
            patch in c'.threads && c'.threads[patch].Done? && View(c'.threads[patch].response) == BAD_REFERENCE
  {
    DeleteSlipsIn(c, delete, req.id, i, j);
    var c1 := Next(Next(c, Advance(delete, i)), Advance(delete, j));
    GroupDeleteValid(c.db, req.id);
    PatchLosesToDelete(c1.db, k, req);
  }

  lemma RunThree(c: Config, e1: Event, e2: Event, e3: Event)
    ensures Run(c, [e1, e2, e3]) == Next(Next(Next(c, e1), e2), e3)
  {
    assert [e1, e2, e3][1..] == [e2, e3] && [e2, e3][1..] == [e3] && [e3][1..] == [];
    assert Run(Next(Next(c, e1), e2), [e3]) == Run(Next(Next(Next(c, e1), e2), e3), []);
  }

  /** A patch checks its group while a deletion of the group has arrived. */
  lemma RaceBegins(db: Database, req: Request, i: Id)
    requires Valid(db) && req.PatchGroup? && GroupPatch.Typed(req.patch) && req.patch.addIds != []
    requires req.id in db.groups.rows && i !in IdsOf(db)
    ensures Next(Next(Next(Start(db), Arrive(0, req)), Arrive(1, RemoveGroup(req.id))), Advance(0, i)) ==
            Config(db, IdsOf(db) + {i}, map[0 := Running(req, Write), 1 := Running(RemoveGroup(req.id), Check)])
  {
    var c := Next(Next(Start(db), Arrive(0, req)), Arrive(1, RemoveGroup(req.id)));
    assert c == Config(db, IdsOf(db), map[0 := Running(req, Check), 1 := Running(RemoveGroup(req.id), Check)]);
    assert GroupPatch.Ids(req.patch.addIds) != [] by { assert req.patch.addIds[0] in req.patch.addIds; }
    assert GroupStore.PatchStmts(req.id, req.patch) != [];
    assert StepThread(db, i, req, Check) == (db, Running(req, Write));
  }

  /** From the start, on any tables: two arrivals, the check of the patch, the two calls of the deletion and
      the transaction of the patch end in 400. */
  lemma PatchRaceFromStart(db: Database, req: Request, i1: Id, i2: Id, i3: Id, i4: Id)
    requires Valid(db) && req.PatchGroup? && GroupPatch.Typed(req.patch)
    requires !ChangesAttributes(req.patch) && req.patch.addIds != [] && req.id in db.groups.rows
    requires i1 !in IdsOf(db) && i2 !in IdsOf(db) + {i1} && i3 !in IdsOf(db) + {i1, i2} && i4 !in IdsOf(db) + {i1, i2, i3}
    ensures var events := [Arrive(0, req), Arrive(1, RemoveGroup(req.id)), Advance(0, i1)]
                          + [Advance(1, i2), Advance(1, i3), Advance(0, i4)];
            var threads := After(db, events).threads;
            0 in threads && threads[0].Done? && View(threads[0].response) == BAD_REFERENCE
  {
    var first := [Arrive(0, req), Arrive(1, RemoveGroup(req.id)), Advance(0, i1)];
    var second := [Advance(1, i2), Advance(1, i3), Advance(0, i4)];
    RunThree(Start(db), first[0], first[1], first[2]);
    RaceBegins(db, req, i1);
    RunConcat(Start(db), first, second);
    var c := Run(Start(db), first);
    RunThree(c, second[0], second[1], second[2]);
    PatchRaceReachable(c, 0, 1, req, i2, i3, i4);
  }
}

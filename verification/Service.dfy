/**
 The routes that write the table, as a state machine. SetMigrated reads a row, possibly from a replica that lags
 behind, and writes the whole row back later; DeleteUser looks the user up, asks for its devices, and deletes it.
 Any number of requests take their steps in any order.
 */
module Service {
  import opened Users
  import opened Wrappers

  datatype Task = Migrating(row: Row) | Deleting(id: string)

  /** Every state the table has been in, the current one last, and what each request has in hand. */
  datatype State = State(history: seq<Table>, tasks: map<nat, Task>) {
    ghost function Now(): Table
      requires history != []
    {
      history[|history| - 1]
    }
  }

  datatype Step =
    | ReadForMigration(g: nat, id: string, at: nat)
    | WriteMigration(g: nat, migratedAt: Option<Time>)
    | FindForDeletion(g: nat, id: string)
    | FinishDeletion(g: nat, devices: Result<nat>)
    | Abandon(g: nat)

  ghost function Finish(s: State, g: nat): State {
    s.(tasks := s.tasks - {g})
  }

  /** One step of one request; a step it is not ready for does nothing. */
  ghost function Next(s: State, step: Step): State
    requires s.history != []
    ensures s.history <= Next(s, step).history
  {
    match step
    case ReadForMigration(g, id, at) =>
      if g in s.tasks || at >= |s.history| || id !in s.history[at] then s
      else s.(tasks := s.tasks[g := Migrating(s.history[at][id])])
    case WriteMigration(g, migratedAt) =>
      if g !in s.tasks || !s.tasks[g].Migrating? then s else
        var written := WriteBack(s.Now(), s.tasks[g].row.(migratedAt := migratedAt));
        if written.Err? then Finish(s, g) else Finish(s.(history := s.history + [written.value]), g)
    case FindForDeletion(g, id) =>
      if g in s.tasks || id !in s.Now() then s else s.(tasks := s.tasks[g := Deleting(id)])
    case FinishDeletion(g, devices) =>
      if g !in s.tasks || !s.tasks[g].Deleting? then s
      else if devices != Ok(0) then Finish(s, g)
      else Finish(s.(history := s.history + [DeleteRow(s.Now(), s.tasks[g].id)]), g)
    case Abandon(g) => Finish(s, g)
  }

  ghost function Run(s: State, steps: seq<Step>): (t: State)
    requires s.history != []
    ensures s.history <= t.history
    decreases |steps|
  {
    if steps == [] then s else Run(Next(s, steps[0]), steps[1..])
  }

  ghost function Start(t: Table): State {
    State([t], map[])
  }

  /** What may have become of a row: it was migrated, or its referrer was deleted. */
  ghost predicate RowLater(before: Row, after: Row, now: Table) {
    && after == before.(migratedAt := after.migratedAt, referringUserId := after.referringUserId)
    && (after.referringUserId == before.referringUserId ||
        (after.referringUserId.None? && before.referringUserId.value !in now))
  }

  /** now can come after was: no id is new, and every surviving row is the same up to RowLater. */
  ghost predicate Later(was: Table, now: Table) {
    && now.Keys <= was.Keys
    && forall id :: id in now ==> RowLater(was[id], now[id], now)
  }

  lemma LaterTransitive(a: Table, b: Table, c: Table)
    requires Later(a, b) && Later(b, c)
    ensures Later(a, c)
  {
    forall id | id in c
      ensures RowLater(a[id], c[id], c)
    {
      assert RowLater(a[id], b[id], b) && RowLater(b[id], c[id], c);
    }
  }

  ghost predicate Inv(s: State) {
    && s.history != []
    && (forall i :: 0 <= i < |s.history| ==> Sound(s.history[i]))
    && (forall i, j :: 0 <= i <= j < |s.history| ==> Later(s.history[i], s.history[j]))
    && (forall g :: g in s.tasks && s.tasks[g].Migrating? ==> WasRead(s, s.tasks[g].row))
  }

  /** The row is one that the table held under its id at some time. */
  ghost predicate WasRead(s: State, row: Row) {
    exists i :: 0 <= i < |s.history| && row.id in s.history[i] && s.history[i][row.id] == row
  }

  lemma DeleteIsLater(t: Table, id: string)
    requires Sound(t)
    ensures Sound(DeleteRow(t, id)) && Later(t, DeleteRow(t, id))
  {
    DeleteKeepsSound(t, id);
  }

  /** The write-back is rejected exactly when the user is still there and the referrer read with it is gone. */
  ghost predicate Outdated(row: Row, now: Table) {
    row.id in now && row.referringUserId.Some? && row.referringUserId.value !in now
  }

  /** The table after a write-back that was accepted. */
  ghost function Migrated(now: Table, id: string, migratedAt: Option<Time>): Table {
    if id in now then now[id := now[id].(migratedAt := migratedAt)] else now
  }

  /** Overwriting a row with one of the same referral code can only break the foreign key. */
  lemma OverwriteSound(now: Table, row: Row)
    requires Sound(now) && row.id in now
    requires row.account.referralCode == now[row.id].account.referralCode
    ensures Sound(now[row.id := row]) <==> row.referringUserId.None? || row.referringUserId.value in now
  {
    var t := now[row.id := row];
    assert t[row.id] == row && t.Keys == now.Keys;
    assert UniqueCodes(t) by {
      assert forall x :: x in t ==> t[x].account.referralCode == now[x].account.referralCode;
    }
  }

  /** A whole-row write of a row read earlier is, when accepted, the write of migrated_at alone. */
  lemma StaleWrite(was: Table, now: Table, row: Row, migratedAt: Option<Time>)
    requires Sound(was) && Sound(now) && Later(was, now)
    requires row.id in was && was[row.id] == row
    ensures var written := WriteBack(now, row.(migratedAt := migratedAt));
            && (written.Err? <==> Outdated(row, now))
            && (written.Ok? ==> written.value == Migrated(now, row.id, migratedAt))
  {
    if row.id in now {
      assert RowLater(row, now[row.id], now);
      OverwriteSound(now, row.(migratedAt := migratedAt, createdAt := now[row.id].createdAt));
      assert !Outdated(row, now) ==> now[row.id] == row.(migratedAt := now[row.id].migratedAt);
    }
  }

  lemma MigrationIsLater(now: Table, id: string, migratedAt: Option<Time>)
    requires Sound(now)
    ensures Later(now, Migrated(now, id, migratedAt)) && Sound(Migrated(now, id, migratedAt))
  {
    if id in now {
      OverwriteSound(now, now[id].(migratedAt := migratedAt));
    }
  }

  lemma AllLater(s: State, t: Table)
    requires Inv(s) && Later(s.Now(), t)
    ensures forall i :: 0 <= i < |s.history| ==> Later(s.history[i], t)
  {
    forall i | 0 <= i < |s.history|
      ensures Later(s.history[i], t)
    {
      LaterTransitive(s.history[i], s.Now(), t);
    }
  }

  lemma StillRead(s: State, t: Table, row: Row)
    requires WasRead(s, row)
    ensures WasRead(s.(history := s.history + [t]), row)
  {
    var i :| 0 <= i < |s.history| && row.id in s.history[i] && s.history[i][row.id] == row;
    assert (s.history + [t])[i] == s.history[i];
  }

  lemma AppendKeepsInv(s: State, t: Table)
    requires Inv(s) && Sound(t) && Later(s.Now(), t)
    ensures Inv(s.(history := s.history + [t]))
  {
    AllLater(s, t);
    assert Later(t, t);
    forall g | g in s.tasks && s.tasks[g].Migrating?
      ensures WasRead(s.(history := s.history + [t]), s.tasks[g].row)
    {
      StillRead(s, t, s.tasks[g].row);
    }
  }

  lemma WriteBackOfRead(s: State, row: Row, migratedAt: Option<Time>)
    requires Inv(s) && WasRead(s, row)
    ensures WriteBack(s.Now(), row.(migratedAt := migratedAt)) ==
            if Outdated(row, s.Now()) then Err else Ok(Migrated(s.Now(), row.id, migratedAt))
    ensures Sound(Migrated(s.Now(), row.id, migratedAt)) && Later(s.Now(), Migrated(s.Now(), row.id, migratedAt))
  {
    var i :| 0 <= i < |s.history| && row.id in s.history[i] && s.history[i][row.id] == row;
    assert Later(s.history[i], s.Now()) && Later(s.Now(), s.Now());
    StaleWrite(s.history[i], s.Now(), row, migratedAt);
    MigrationIsLater(s.Now(), row.id, migratedAt);
  }

  lemma FinishKeepsInv(s: State, g: nat)
    requires Inv(s)
    ensures Inv(Finish(s, g))
  {
    var t := Finish(s, g);
    forall k | k in t.tasks && t.tasks[k].Migrating?
      ensures WasRead(t, t.tasks[k].row)
    {
      assert WasRead(s, s.tasks[k].row);
    }
  }

  lemma BeginKeepsInv(s: State, g: nat, task: Task)
    requires Inv(s)
    requires task.Migrating? ==> WasRead(s, task.row)
    ensures Inv(s.(tasks := s.tasks[g := task]))
  {
    var t := s.(tasks := s.tasks[g := task]);
    forall k | k in t.tasks && t.tasks[k].Migrating?
      ensures WasRead(t, t.tasks[k].row)
    {
      assert k != g ==> WasRead(s, s.tasks[k].row);
    }
  }

  lemma StepKeepsInv(s: State, step: Step)
    requires Inv(s)
    ensures Inv(Next(s, step))
  {
    match step
    case ReadForMigration(g, id, at) =>
      if g !in s.tasks && at < |s.history| && id in s.history[at] {
        assert s.history[at][id].id == id;
        BeginKeepsInv(s, g, Migrating(s.history[at][id]));
      }
    case WriteMigration(g, migratedAt) =>
      if g in s.tasks && s.tasks[g].Migrating? {
        var row := s.tasks[g].row;
        WriteBackOfRead(s, row, migratedAt);
        FinishKeepsInv(s, g);
        if !Outdated(row, s.Now()) {
          AppendKeepsInv(s, Migrated(s.Now(), row.id, migratedAt));
          FinishKeepsInv(s.(history := s.history + [Migrated(s.Now(), row.id, migratedAt)]), g);
        }
      }
    case FindForDeletion(g, id) =>
      if g !in s.tasks && id in s.Now() {
        BeginKeepsInv(s, g, Deleting(id));
      }
    case FinishDeletion(g, devices) =>
      FinishKeepsInv(s, g);
      if g in s.tasks && s.tasks[g].Deleting? {
        var t := DeleteRow(s.Now(), s.tasks[g].id);
        DeleteIsLater(s.Now(), s.tasks[g].id);
        AppendKeepsInv(s, t);
        FinishKeepsInv(s.(history := s.history + [t]), g);
      }
    case Abandon(g) =>
      FinishKeepsInv(s, g);
  }

  lemma {:induction false} RunKeepsInv(s: State, steps: seq<Step>)
    requires Inv(s)
    ensures Inv(Run(s, steps))
    decreases |steps|
  {
    if steps != [] {
      StepKeepsInv(s, steps[0]);
      RunKeepsInv(Next(s, steps[0]), steps[1..]);
    }
  }

  /**
   In every run of the routes, from any table that meets its constraints: the constraints hold in every state, no id
   is ever added, and a surviving row changes only in migrated_at or by losing a referrer that is gone.
   */
  lemma EveryRunIsSafe(t: Table, steps: seq<Step>, i: nat, j: nat)
    requires Sound(t)
    requires i <= j < |Run(Start(t), steps).history|
    ensures var h := Run(Start(t), steps).history; h[0] == t && Sound(h[j]) && Later(h[i], h[j])
  {
    RunKeepsInv(Start(t), steps);
  }

  /** In every run, whatever the delay since the read: a stale write-back is rejected, or it only sets migrated_at. */
  lemma EveryWriteBackIsSafe(t: Table, steps: seq<Step>, g: nat, migratedAt: Option<Time>)
    requires Sound(t)
    requires var s := Run(Start(t), steps); g in s.tasks && s.tasks[g].Migrating?
    ensures var s := Run(Start(t), steps); var row := s.tasks[g].row;
            Next(s, WriteMigration(g, migratedAt)).history ==
              if Outdated(row, s.Now()) then s.history else s.history + [Migrated(s.Now(), row.id, migratedAt)]
  {
    RunKeepsInv(Start(t), steps);
    WriteStepHistory(Run(Start(t), steps), g, migratedAt);
  }

  /** But for migrated_at, the start and who is left determine every state: a referrer is kept exactly while there. */
  lemma SurvivorsDetermineTheTable(t: Table, steps: seq<Step>, j: nat, id: string)
    requires Sound(t)
    requires var h := Run(Start(t), steps).history; j < |h| && id in h[j]
    ensures id in t
    ensures var now, referrer := Run(Start(t), steps).history[j], t[id].referringUserId;
            now[id] == t[id].(migratedAt := now[id].migratedAt,
                              referringUserId := if referrer.Some? && referrer.value in now then referrer else None)
  {
    EveryRunIsSafe(t, steps, 0, j);
    var now := Run(Start(t), steps).history[j];
    assert RowLater(t[id], now[id], now);
  }

  /** What a step writes: the id and the time of a write-back, if it is one that a request is ready for. */
  ghost function Writes(s: State, step: Step): Option<(string, Option<Time>)> {
    if step.WriteMigration? && step.g in s.tasks && s.tasks[step.g].Migrating? then
      Some((s.tasks[step.g].row.id, step.migratedAt))
    else None
  }

  /** The times that the write-backs of a run write for an id. */
  ghost function WrittenFor(s: State, steps: seq<Step>, id: string): set<Option<Time>>
    requires s.history != []
    decreases |steps|
  {
    if steps == [] then {} else
      var w := Writes(s, steps[0]);
      (if w.Some? && w.value.0 == id then {w.value.1} else {}) + WrittenFor(Next(s, steps[0]), steps[1..], id)
  }

  lemma WriteStepHistory(s: State, g: nat, migratedAt: Option<Time>)
    requires Inv(s) && g in s.tasks && s.tasks[g].Migrating?
    ensures var row := s.tasks[g].row;
            Next(s, WriteMigration(g, migratedAt)).history ==
              if Outdated(row, s.Now()) then s.history else s.history + [Migrated(s.Now(), row.id, migratedAt)]
  {
    WriteBackOfRead(s, s.tasks[g].row, migratedAt);
  }

  lemma WriteStep(s: State, g: nat, migratedAt: Option<Time>, id: string)
    requires Inv(s) && g in s.tasks && s.tasks[g].Migrating? && id in Next(s, WriteMigration(g, migratedAt)).Now()
    ensures id in s.Now()
    ensures var before, after := s.Now()[id], Next(s, WriteMigration(g, migratedAt)).Now()[id];
            after == before || (id == s.tasks[g].row.id && after == before.(migratedAt := migratedAt))
  {
    WriteStepHistory(s, g, migratedAt);
    MigratedRow(s.Now(), s.tasks[g].row.id, migratedAt, id);
  }

  lemma MigratedRow(now: Table, row: string, migratedAt: Option<Time>, id: string)
    ensures id in Migrated(now, row, migratedAt) <==> id in now
    ensures id in now ==>
              Migrated(now, row, migratedAt)[id] == if id == row then now[id].(migratedAt := migratedAt) else now[id]
  {
  }

  lemma DeleteStep(s: State, g: nat, devices: Result<nat>, id: string)
    requires s.history != [] && id in Next(s, FinishDeletion(g, devices)).Now()
    ensures id in s.Now()
    ensures Next(s, FinishDeletion(g, devices)).Now()[id].migratedAt == s.Now()[id].migratedAt
  {
    if g in s.tasks && s.tasks[g].Deleting? {
      DeleteExactly(s.Now(), s.tasks[g].id);
    }
  }

  /** A step changes the migrated_at of a row only by a write-back to that very row, and then to what it writes. */
  lemma StepMigrates(s: State, step: Step, id: string)
    requires Inv(s) && id in Next(s, step).Now()
    ensures id in s.Now()
    ensures var before, after, w := s.Now()[id].migratedAt, Next(s, step).Now()[id].migratedAt, Writes(s, step);
            after == before || w == Some((id, after))
  {
    match step
    case WriteMigration(g, migratedAt) =>
      if g in s.tasks && s.tasks[g].Migrating? {
        WriteStep(s, g, migratedAt, id);
      }
    case FinishDeletion(g, devices) =>
      DeleteStep(s, g, devices, id);
    case _ =>
  }

  lemma {:induction false} RunSnoc(s: State, steps: seq<Step>, step: Step)
    requires s.history != []
    ensures Run(s, steps + [step]) == Next(Run(s, steps), step)
    decreases |steps|
  {
    if steps == [] {
      assert [step][1..] == [] && [] + [step] == [step];
    } else {
      assert (steps + [step])[1..] == steps[1..] + [step];
      RunSnoc(Next(s, steps[0]), steps[1..], step);
    }
  }

  lemma StepMigratesIn(t: Table, done: seq<Step>, step: Step, id: string)
    requires Sound(t) && id in Run(Start(t), done + [step]).Now()
    ensures var s, next := Run(Start(t), done), Run(Start(t), done + [step]);
            && next == Next(s, step) && id in s.Now()
            && var before, after := s.Now()[id].migratedAt, next.Now()[id].migratedAt;
               after == before || Writes(s, step) == Some((id, after))
  {
    RunSnoc(Start(t), done, step);
    RunKeepsInv(Start(t), done);
    StepMigrates(Run(Start(t), done), step, id);
  }

  /** From any state of a run on: a row's migrated_at is what it was, or what a write-back to it has written since. */
  lemma {:induction false} MigratedSince(t: Table, done: seq<Step>, steps: seq<Step>, j: nat, id: string)
    requires Sound(t)
    requires var s := Run(Start(t), done);
             |s.history| - 1 <= j < |Run(s, steps).history| && id in Run(s, steps).history[j]
    ensures var s := Run(Start(t), done);
            && id in s.Now()
            && var now := Run(s, steps).history[j][id].migratedAt;
               now == s.Now()[id].migratedAt || now in WrittenFor(s, steps, id)
    decreases |steps|
  {
    var s := Run(Start(t), done);
    if j == |s.history| - 1 {
      assert Run(s, steps).history[j] == s.history[j];
    } else if steps != [] {
      StepExtends(s, steps[0]);
      RunSnoc(Start(t), done, steps[0]);
      MigratedSince(t, done + [steps[0]], steps[1..], j, id);
      StepMigratesIn(t, done, steps[0], id);
    }
  }

  lemma StepExtends(s: State, step: Step)
    requires s.history != []
    ensures |Next(s, step).history| <= |s.history| + 1
  {
  }

  /** In every run, a row's migrated_at is that of the start, or one that a write-back of it wrote for that very id. */
  lemma MigratedByWriteBacksOnly(t: Table, steps: seq<Step>, j: nat, id: string)
    requires Sound(t)
    requires j < |Run(Start(t), steps).history| && id in Run(Start(t), steps).history[j]
    ensures id in t
    ensures var now := Run(Start(t), steps).history[j][id].migratedAt;
            now == t[id].migratedAt || now in WrittenFor(Start(t), steps, id)
  {
    assert Run(Start(t), []) == Start(t);
    MigratedSince(t, [], steps, j, id);
  }

  /** Looking a user up and then finishing, alone, a deletion leaves the table that the handler leaves. */
  lemma DeletionAlone(s: State, g: nat, id: string, devices: Result<nat>)
    requires s.history != [] && g !in s.tasks
    ensures var t := Run(s, [FindForDeletion(g, id), FinishDeletion(g, devices)]);
            t.history == if id in s.Now() && devices == Ok(0) then s.history + [DeleteRow(s.Now(), id)] else s.history
  {
    RunTwo(s, FindForDeletion(g, id), FinishDeletion(g, devices));
  }

  /** Reading a user and then writing back, alone, leaves what the write-back makes of the table, if it is accepted. */
  lemma MigrationAlone(s: State, g: nat, id: string, at: nat, migratedAt: Option<Time>)
    requires s.history != [] && g !in s.tasks && at < |s.history|
    ensures var t := Run(s, [ReadForMigration(g, id, at), WriteMigration(g, migratedAt)]);
            if id !in s.history[at] then t.history == s.history
            else
              var written := WriteBack(s.Now(), s.history[at][id].(migratedAt := migratedAt));
              t.history == if written.Ok? then s.history + [written.value] else s.history
  {
    RunTwo(s, ReadForMigration(g, id, at), WriteMigration(g, migratedAt));
  }

  lemma RunTwo(s: State, a: Step, b: Step)
    requires s.history != []
    ensures Run(s, [a, b]) == Next(Next(s, a), b)
  {
    assert [a, b][1..] == [b] && [b][1..] == [];
    assert Run(Next(s, a), [b]) == Next(Next(s, a), b);
  }
}

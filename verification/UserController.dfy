/** The user routes: what they answer with, and what they do to the table. */
module UserController {
  import opened Database
  import opened UserObjects
  import opened Users
  import opened Wrappers
  import GrpcApi
  import Service

  /** The parts of a token that the routes use. */
  datatype Claim = Claim(id: string, ethereumAddress: Option<Bytes>)

  /** The answer to GET; addresses are left as bytes. */
  datatype Response = Response(
    id: string, emailAddress: Option<string>, emailConfirmed: bool, ethereumConfirmed: bool, inApp: bool,
    referralCode: Option<string>, referredBy: Option<Bytes>, referredAt: Option<Time>, migratedAt: Option<Time>)

  function ResponseOf(row: Row, referrer: Option<Row>): Response {
    Response(
      row.id, row.account.emailAddress, row.account.emailConfirmed, row.account.ethereumConfirmed,
      row.account.inAppWallet,
      if row.account.ethereumConfirmed then row.account.referralCode else None,
      if referrer.Some? && referrer.value.account.ethereumConfirmed then
        Some(GrpcApi.BytesOf(referrer.value.account.ethereumAddress))
      else None,
      row.account.referredAt, row.migratedAt)
  }

  /** What the answer shows: the referral code only when confirmed, the referrer's address only when the referrer is. */
  lemma ResponseExactly(row: Row, referrer: Option<Row>)
    ensures var out := ResponseOf(row, referrer);
            && out.id == row.id && out.emailAddress == row.account.emailAddress
            && (out.emailConfirmed <==> row.account.emailConfirmed)
            && (out.ethereumConfirmed <==> row.account.ethereumConfirmed) && (out.inApp <==> row.account.inAppWallet)
            && out.referredAt == row.account.referredAt && out.migratedAt == row.migratedAt
            && (out.referralCode.Some? <==> row.account.ethereumConfirmed && row.account.referralCode.Some?)
            && (out.referralCode.Some? ==> out.referralCode == row.account.referralCode)
            && (out.referredBy.Some? <==> referrer.Some? && referrer.value.account.ethereumConfirmed)
            && (out.referredBy.Some? && referrer.value.account.ethereumAddress.Some? ==>
                  out.referredBy == referrer.value.account.ethereumAddress)
  {
  }

  method FormatUser(user: User) returns (out: Response)
    ensures out == ResponseOf(user.row, GrpcApi.LoadedReferrer(user))
  {
    var referralCode: Option<string> := None;
    if user.row.account.ethereumConfirmed {
      referralCode := user.row.account.referralCode;
    }
    var referrer: Option<Bytes> := None;
    if user.R.Some? && user.R.value.ReferringUser != null && user.R.value.ReferringUser.row.account.ethereumConfirmed {
      referrer := Some(GrpcApi.BytesOf(user.R.value.ReferringUser.row.account.ethereumAddress));
    }
    var account := user.row.account;
    out := Response(user.row.id, account.emailAddress, account.emailConfirmed, account.ethereumConfirmed,
                    account.inAppWallet, referralCode, referrer, account.referredAt, user.row.migratedAt);
  }

  /** Users are no longer created: one that is not there is not found. */
  method GetOrCreateUser(db: DB, up: GrpcApi.Queries, id: string) returns (r: GrpcApi.Reply<User>)
    requires db.Valid()
    ensures r.Found? <==> id in db.table && GrpcApi.Served(up, db.table[id])
    ensures r.Found? ==> fresh(r.value) && r.value.row == db.table[id]
    ensures r.Found? ==> GrpcApi.LoadedReferrer(r.value) == GrpcApi.ReferrerRow(db.table, db.table[id])
    ensures r.NotFound? <==> up.answered && id !in db.table
  {
    assert id in db.table ==> db.table[id].id == id;
    r := GrpcApi.Lookup(db, db, up, (row: Row) => row.id == id, (row: Row) => 0);
  }

  predicate HoldsAddress(row: Row, address: Bytes) {
    row.account.ethereumAddress == Some(address)
  }

  predicate SomeHolds(t: Table, address: Bytes) {
    exists id :: id in t && HoldsAddress(t[id], address)
  }

  /** One of the rows with the address, an email-confirmed one if there is any. */
  method GetUserByEth(db: DB, up: GrpcApi.Queries, address: Bytes) returns (r: GrpcApi.Reply<User>)
    requires db.Valid()
    ensures r.Found? ==> fresh(r.value) && r.value.row.id in db.table && db.table[r.value.row.id] == r.value.row
    ensures r.Found? ==> HoldsAddress(r.value.row, address) && r.value.Referrer() != r.value
    ensures r.Found? ==> GrpcApi.LoadedReferrer(r.value) == GrpcApi.ReferrerRow(db.table, r.value.row)
    ensures r.Found? ==> (r.value.row.account.emailConfirmed <==> SomeConfirmed(db.table, address))
    ensures r.NotFound? <==> up.answered && !SomeHolds(db.table, address)
    ensures r.Internal? ==> !up.answered || !up.loaded
  {
    var key := (row: Row) => if row.account.emailConfirmed then 1 else 0;
    r := GrpcApi.Lookup(db, db, up, (row: Row) => HoldsAddress(row, address), key);
    if r.Found? && SomeConfirmed(db.table, address) {
      var id :| id in db.table && HoldsAddress(db.table[id], address) && db.table[id].account.emailConfirmed;
      assert key(db.table[id]) <= key(r.value.row);
    }
  }

  /** Some row with the address has a confirmed email. */
  predicate SomeConfirmed(t: Table, address: Bytes) {
    exists id :: id in t && HoldsAddress(t[id], address) && t[id].account.emailConfirmed
  }

  /** The answer shows the row, though under the id of the claim. */
  predicate Shows(t: Table, claim: Claim, row: Row, out: Response) {
    out == ResponseOf(row.(id := claim.id), GrpcApi.ReferrerRow(t, row))
  }

  /** The row that a second lookup, by the claim's address, leads to: the claim's own if it failed or found nothing. */
  ghost predicate Prefers(t: Table, claim: Claim, degraded: bool, shown: Row)
    requires claim.id in t
  {
    && shown.id in t && shown == t[shown.id]
    && (claim.ethereumAddress.None? || degraded ==> shown == t[claim.id])
    && (claim.ethereumAddress.Some? ==>
          var address := claim.ethereumAddress.value;
          && (shown.id != claim.id ==> HoldsAddress(shown, address))
          && (!degraded && SomeHolds(t, address) ==>
                HoldsAddress(shown, address) && (shown.account.emailConfirmed <==> SomeConfirmed(t, address))))
  }

  /** The second half of the lookup: another user's object may take the place of the claim's, under the claim's id. */
  method PreferConfirmed(db: DB, up: GrpcApi.Queries, claim: Claim, own: User)
    returns (user: User, ghost shown: Row, ghost degraded: bool)
    requires db.Valid() && claim.id in db.table && own.row == db.table[claim.id]
    requires GrpcApi.LoadedReferrer(own) == GrpcApi.ReferrerRow(db.table, own.row)
    ensures Prefers(db.table, claim, degraded, shown) && user.row == shown.(id := claim.id)
    ensures degraded ==> !up.answered || !up.loaded
    ensures GrpcApi.LoadedReferrer(user) == GrpcApi.ReferrerRow(db.table, shown)
  {
    user, shown, degraded := own, own.row, false;
    assert own.row.id == claim.id;
    if claim.ethereumAddress.Some? {
      var better := GetUserByEth(db, up, claim.ethereumAddress.value);
      degraded := better.Internal?;
      if better.Found? {
        if user.row.id != better.value.row.id {
          user := better.value;
          shown := user.row;
          user.row := user.row.(id := claim.id);
        }
      }
    }
  }

  /**
   GET of the claim's user. The address of the claim may lead to another row with a confirmed email; the answer then
   shows that row under the id of the claim. If that second lookup fails, the failure is ignored (degraded); so only the
   first one decides whether there is an answer.
   */
  method GetUser(db: DB, own: GrpcApi.Queries, other: GrpcApi.Queries, claim: Claim)
    returns (r: GrpcApi.Reply<Response>, ghost shown: Row, ghost degraded: bool)
    requires db.Valid()
    ensures r.NotFound? <==> own.answered && claim.id !in db.table
    ensures r.Found? <==> claim.id in db.table && GrpcApi.Served(own, db.table[claim.id])
    ensures r.Found? ==> r.value.id == claim.id
    ensures degraded ==> !other.answered || !other.loaded
    ensures r.Found? ==> Prefers(db.table, claim, degraded, shown) && Shows(db.table, claim, shown, r.value)
    ensures r.Found? && !degraded && claim.ethereumAddress.Some? && SomeHolds(db.table, claim.ethereumAddress.value) ==>
              (r.value.emailConfirmed <==> SomeConfirmed(db.table, claim.ethereumAddress.value))
  {
    degraded := false;
    shown := *;
    var found := GetOrCreateUser(db, own, claim.id);
    if !found.Found? {
      r := if found.NotFound? then GrpcApi.NotFound else GrpcApi.Internal;
      return;
    }
    var user;
    user, shown, degraded := PreferConfirmed(db, other, claim, found.value);
    var out := FormatUser(user);
    r := GrpcApi.Found(out);
  }

  /** Both APIs agree on the referrer of a referred user: it shows here exactly if it is valid there. */
  lemma AnswersAgree(row: Row, referrer: Option<Row>)
    requires row.account.referredAt.Some?
    ensures var shown, valid := ResponseOf(row, referrer).referredBy, GrpcApi.ViewOf(row, referrer).referredBy.value;
            && (shown.Some? <==> valid.referrerValid)
            && (shown.Some? ==> shown.value == valid.ethereumAddress)
  {
  }

  /**
   Over every run, whenever the two queries of a request are answered: but for migrated_at, a user's answer is that of
   the start, with the referrer shown exactly if it was there at both times and is confirmed.
   */
  lemma AnswerShownExactly(t: Table, steps: seq<Service.Step>, id: string, i: nat, j: nat)
    requires Sound(t)
    requires var h := Service.Run(Service.Start(t), steps).history; i < |h| && j < |h| && id in h[i]
    ensures id in t
    ensures var h, referrer := Service.Run(Service.Start(t), steps).history, t[id].referringUserId;
            var there := referrer.Some? && referrer.value in h[i] && referrer.value in h[j];
            ResponseOf(h[i][id], GrpcApi.ReferrerRow(h[j], h[i][id])) ==
              ResponseOf(t[id], if there then Some(t[referrer.value]) else None).(migratedAt := h[i][id].migratedAt)
  {
    Service.SurvivorsDetermineTheTable(t, steps, i, id);
    var h: seq<Table> := Service.Run(Service.Start(t), steps).history;
    var referrer := h[i][id].referringUserId;
    if referrer.Some? && referrer.value in h[j] {
      Service.SurvivorsDetermineTheTable(t, steps, j, referrer.value);
    }
  }

  /** The codes the routes that write answer with. */
  datatype Status = NoContent | Missing | Conflict | Failed

  /**
   The user is read, possibly from a replica, and the whole row is written back. A user who is not found is answered
   for like any other failure.
   */
  method SetMigrated(reader: DB, writer: DB, read: GrpcApi.Queries, written: bool, id: string, dev: bool, clear: bool,
                     now: Time) returns (status: Status)
    requires reader.Valid() && writer.Valid()
    modifies writer
    ensures writer.Valid() && status in {NoContent, Failed}
    ensures var migratedAt := if dev && clear then None else Some(now);
            && (status == NoContent <==>
                && id in old(reader.table) && GrpcApi.Served(read, old(reader.table)[id]) && written
                && WriteBack(old(writer.table), old(reader.table)[id].(migratedAt := migratedAt)).Ok?)
            && (status == NoContent ==>
                WriteBack(old(writer.table), old(reader.table)[id].(migratedAt := migratedAt)) == Ok(writer.table))
    ensures status != NoContent ==> writer.table == old(writer.table)
  {
    var found := GetOrCreateUser(reader, read, id);
    if !found.Found? {
      return Failed;
    }
    var user := found.value;
    if dev && clear {
      user.row := user.row.(migratedAt := None);
    } else {
      user.row := user.row.(migratedAt := Some(now));
    }
    var ok := writer.Update(written, user.row);
    status := if ok then NoContent else Failed;
  }

  /**
   Within a run, when the reader shows any state since its start and the writer the current one, the write of
   SetMigrated is refused exactly if the user is still there and the referrer read is gone; else it only sets
   migrated_at.
   */
  lemma MigrationWithinRun(t: Table, steps: seq<Service.Step>, i: nat, id: string, migratedAt: Option<Time>)
    requires Sound(t)
    requires var h := Service.Run(Service.Start(t), steps).history; i < |h| && id in h[i]
    ensures var s := Service.Run(Service.Start(t), steps);
            var row := s.history[i][id];
            WriteBack(s.Now(), row.(migratedAt := migratedAt)) ==
              if Service.Outdated(row, s.Now()) then Err else Ok(Service.Migrated(s.Now(), id, migratedAt))
  {
    var s := Service.Run(Service.Start(t), steps);
    Service.RunKeepsInv(Service.Start(t), steps);
    assert Sound(s.history[i]);
    Service.WriteBackOfRead(s, s.history[i][id], migratedAt);
  }

  /** Which of the statements of a deletion succeed: the begin, the lookup, the delete and the commit. */
  datatype DeletionSteps = DeletionSteps(begun: bool, answered: bool, deleted: bool, committed: bool)

  /** Everything before the delete goes through. */
  predicate ReachesDelete(t: Table, id: string, devices: Result<nat>, up: DeletionSteps) {
    up.begun && up.answered && id in t && devices == Ok(0)
  }

  /**
   Deletes a user without devices. The row is deleted outside the transaction that found it, so if that transaction
   then fails to commit, the failure is reported although the row is gone.
   */
  method DeleteUser(writer: DB, id: string, devices: Result<nat>, up: DeletionSteps) returns (status: Status)
    requires writer.Valid()
    modifies writer
    ensures writer.Valid()
    ensures (status, writer.table) == Deletion(old(writer.table), id, devices, up)
    ensures status == Failed && writer.table != old(writer.table) <==>
            ReachesDelete(old(writer.table), id, devices, up) && up.deleted && !up.committed
  {
    if !up.begun {
      return Failed;
    }
    assert id in writer.table ==> writer.table[id].id == id;
    var ok, user := One(writer, up.answered, (row: Row) => row.id == id, (row: Row) => 0);
    if !ok {
      return Failed;
    }
    if user == null {
      return Missing;
    }
    if devices.Err? {
      return Failed;
    }
    if devices.value > 0 {
      return Conflict;
    }
    ok := writer.Delete(up.deleted, user.row.id);
    DeleteTakesAway(old(writer.table), id);
    if !ok {
      return Failed;
    }
    status := if up.committed then NoContent else Failed;
  }

  /** Status and table after a deletion. */
  function Deletion(t: Table, id: string, devices: Result<nat>, up: DeletionSteps): (Status, Table) {
    if up.begun && up.answered && id !in t then (Missing, t)
    else if up.begun && up.answered && devices.Ok? && devices.value > 0 then (Conflict, t)
    else if ReachesDelete(t, id, devices, up) && up.deleted then
      (if up.committed then NoContent else Failed, DeleteRow(t, id))
    else (Failed, t)
  }

  /** A reported failure that deleted the row. */
  ghost predicate FailsYetDeletes(t: Table, id: string, devices: Result<nat>, up: DeletionSteps) {
    Deletion(t, id, devices, up).0 == Failed && Deletion(t, id, devices, up).1 != t
  }

  /** Among the routes' steps, a deletion alone, nothing going wrong, leaves the table that the handler leaves. */
  lemma DeletionInService(s: Service.State, g: nat, id: string, devices: Result<nat>)
    requires s.history != [] && g !in s.tasks
    ensures var up := DeletionSteps(true, true, true, true);
            var t := Service.Run(s, [Service.FindForDeletion(g, id), Service.FinishDeletion(g, devices)]);
            var (status, now) := Deletion(s.Now(), id, devices, up);
            t.history == if status == NoContent then s.history + [now] else s.history
  {
    Service.DeletionAlone(s, g, id, devices);
  }

  /** Whether a reported failure may have deleted the row: exactly if the user is there and has no devices. */
  lemma FailureMayDelete(t: Table, id: string, devices: Result<nat>)
    ensures (exists up :: FailsYetDeletes(t, id, devices, up)) <==> id in t && devices == Ok(0)
  {
    DeleteTakesAway(t, id);
    assert id in t && devices == Ok(0) ==> FailsYetDeletes(t, id, devices, DeletionSteps(true, true, true, false));
  }

  /** What each status says of the user, the devices and the table. */
  lemma DeletionStatus(t: Table, id: string, devices: Result<nat>, up: DeletionSteps)
    ensures var (status, now) := Deletion(t, id, devices, up);
            && (status == NoContent <==> ReachesDelete(t, id, devices, up) && up.deleted && up.committed)
            && (status == NoContent ==> now == DeleteRow(t, id) && id !in now)
            && (status == Missing <==> up.begun && up.answered && id !in t)
            && (status == Conflict <==>
                up.begun && up.answered && id in t && devices.Ok? && devices.value > 0)
            && (id in t && id !in now <==> ReachesDelete(t, id, devices, up) && up.deleted)
  {
    DeleteTakesAway(t, id);
  }

  /** The input at which it happens: one user without devices, whose deletion is not committed. */
  lemma LoneUserIsGone(row: Row)
    ensures var t := map[row.id := row]; var up := DeletionSteps(true, true, true, false);
            Deletion(t, row.id, Ok(0), up) == (Failed, map[])
  {
    assert DeleteRow(map[row.id := row], row.id) == map[];
  }
}

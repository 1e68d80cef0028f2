/** What the referral operations do to the rest of a row: whole rows of objects stay those of the table. */
module WholeRows {
  import opened Consistency
  import opened Relations
  import opened UserObjects
  import opened Users
  import opened Wrappers

  /** The object's row is the table's, if the table has it. */
  ghost predicate Same(row: Row, t: Table) {
    row.id in t ==> t[row.id] == row
  }

  /** There is at most one object for each id, and each has the table's row. */
  ghost predicate AllSame(all: set<User>, rows: map<User, Row>, t: Table) {
    && rows.Keys == all
    && (forall u, v :: u in all && v in all && rows[u].id == rows[v].id ==> u == v)
    && (forall u :: u in all ==> Same(rows[u], t))
  }

  /** Relating changes the referrer, and on insertion a creation time that was not set yet; nothing else. */
  lemma NewRowExactly(insert: bool, row: Row, id: string, now: Time)
    ensures var after := NewRow(insert, row, id, now);
            && after.referringUserId == Some(id)
            && after.(referringUserId := row.referringUserId, createdAt := row.createdAt) == row
            && (after.createdAt != row.createdAt ==> insert && row.createdAt == 0 && after.createdAt == now)
            && (insert && now != 0 ==> after.createdAt != 0)
  {
  }

  /** So does creating, which leaves the referrer alone. */
  lemma CreatedExactly(insert: bool, row: Row, now: Time)
    ensures var after := Created(insert, row, now);
            && after.(createdAt := row.createdAt) == row
            && (after.createdAt != row.createdAt ==> insert && row.createdAt == 0 && after.createdAt == now)
            && (insert && now != 0 ==> after.createdAt != 0)
  {
  }

  /** The row stored under an id, when the related rows with that id are all the same. */
  lemma {:induction false} StoredWhole(insert: bool, t: Table, rows: seq<Row>, n: nat, id: string, now: Time, row: Row)
    requires n <= |rows| && forall i :: 0 <= i < n && rows[i].id == row.id ==> rows[i] == row
    ensures var s := Stored(insert, t, rows, n, id, now);
            insert && row.id in IdsOf(rows)[..n] ==> row.id in s && s[row.id] == NewRow(true, row, id, now)
  {
    if n != 0 {
      StoredWhole(insert, t, rows, n - 1, id, now, row);
      assert IdsOf(rows)[..n] == IdsOf(rows)[..n - 1] + [rows[n - 1].id];
    }
  }

  /** Adding, with insertion or without, keeps whole rows the same. */
  lemma AddKeepsSame(insert: bool, all: set<User>, rows: map<User, Row>, t: Table, related: seq<User>, id: string,
                     now: Time)
    requires AllSame(all, rows, t) && Objects(related) <= all
    ensures AllSame(all, AddedRows(insert, rows, related, id, now),
                    Stored(insert, t, RowsIn(related, rows), |related|, id, now))
  {
    var stored := RowsIn(related, rows);
    assert IdsOf(stored)[..|related|] == IdsOf(stored);
    assert forall u :: u in all ==> AddedRows(insert, rows, related, id, now)[u].id == rows[u].id;
    forall u | u in all
      ensures Same(AddedRows(insert, rows, related, id, now)[u], Stored(insert, t, stored, |related|, id, now))
    {
      RelatedIds(all, rows, related, u);
      StoredRow(insert, t, stored, |related|, id, now, rows[u].id);
      StoredWhole(insert, t, stored, |related|, id, now, rows[u]);
    }
  }

  /** Forgetting those that o refers keeps whole rows the same, when o lists just those that name it. */
  lemma ClearKeepsSame(o: User, all: set<User>, rows: map<User, Row>, Rs: map<User, Option<Related>>, t: Table)
    requires AllSame(all, rows, t) && Consistent(o, all, rows, Rs, t)
    ensures AllSame(all, ForgottenRows(rows, Objects(ReferredIn(Rs[o]))), ClearReferrer(t, rows[o].id))
  {
    var listed := Objects(ReferredIn(Rs[o]));
    forall u | u in all
      ensures Same(ForgottenRows(rows, listed)[u], ClearReferrer(t, rows[o].id))
    {
      assert InStep(u in ReferredIn(Rs[o]), rows[u], Rs[u], o, rows[o].id);
    }
  }

  /** So does replacing. */
  lemma SetKeepsSame(insert: bool, o: User, all: set<User>, rows: map<User, Row>, Rs: map<User, Option<Related>>,
                     t: Table, related: seq<User>, now: Time)
    requires AllSame(all, rows, t) && Consistent(o, all, rows, Rs, t) && Objects(related) <= all
    ensures var id, listed := rows[o].id, Objects(ReferredIn(Rs[o]));
            AllSame(all, ReplacedRows(insert, rows, listed, related, id, now),
                    Stored(insert, ClearReferrer(t, id), RowsIn(related, rows), |related|, id, now))
  {
    var id, listed := rows[o].id, Objects(ReferredIn(Rs[o]));
    var rows1, t1 := ForgottenRows(rows, listed), ClearReferrer(t, id);
    ClearKeepsSame(o, all, rows, Rs, t);
    AddKeepsSame(insert, all, rows1, t1, related, id, now);
    StoredForgets(insert, t1, RowsIn(related, rows), RowsIn(related, rows1), |related|, id, now);
    ReplacedIsForgottenAndAdded(insert, o, rows, Rs, listed, related, id, now);
  }

  /** So does removing. */
  lemma RemoveKeepsSame(all: set<User>, rows: map<User, Row>, t: Table, related: seq<User>)
    requires AllSame(all, rows, t) && Objects(related) <= all
    ensures AllSame(all, ForgottenRows(rows, Objects(related)),
                    Assigned(t, IdsOf(RowsIn(related, rows)), |related|, None))
  {
    var ids := IdsOf(RowsIn(related, rows));
    assert ids[..|related|] == ids;
    forall u | u in all
      ensures Same(ForgottenRows(rows, Objects(related))[u], Assigned(t, ids, |related|, None))
    {
      RelatedIds(all, rows, related, u);
      AssignedRow(t, ids, |related|, None, rows[u].id);
    }
  }

  /** So does setting a referrer. */
  lemma SetReferrerKeepsSame(insert: bool, o: User, referrer: User, all: set<User>, rows: map<User, Row>, t: Table,
                             now: Time)
    requires AllSame(all, rows, t) && o in all && referrer in all
    ensures AllSame(all, ReferredRows(insert, rows, o, referrer, now),
                    WithReferrer(insert, t, Created(insert, rows[referrer], now), rows[o].id))
  {
    var row := Created(insert, rows[referrer], now);
    var rows1, t1 := rows[referrer := row], if insert then t[row.id := row] else t;
    assert AllSame(all, rows1, t1);
    AddKeepsSame(false, all, rows1, t1, [o], row.id, now);
    AddedAlone(rows1, t1, o, row.id, now);
  }
}

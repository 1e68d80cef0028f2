/** Setting, adding and removing referred users: the table, the objects' rows and their pointers change together. */
module Relations {
  import opened Database
  import opened SwapRemoval
  import opened UserObjects
  import opened Users
  import opened Wrappers

  /** The row a related object has once it is (inserted and) related to the given id; the zero time is 0. */
  function NewRow(insert: bool, row: Row, id: string, now: Time): Row {
    if insert && row.createdAt == 0 then row.(referringUserId := Some(id), createdAt := now)
    else row.(referringUserId := Some(id))
  }

  /** The table after the statements of the first n related rows. */
  function Stored(insert: bool, t: Table, rows: seq<Row>, n: nat, id: string, now: Time): Table
    requires n <= |rows|
  {
    if n == 0 then t else
      var u := Stored(insert, t, rows, n - 1, id, now);
      if insert then u[rows[n - 1].id := NewRow(true, rows[n - 1], id, now)]
      else SetReferrer(u, rows[n - 1].id, Some(id))
  }

  /** What is stored does not depend on the referrers the related rows named before. */
  lemma {:induction false} StoredForgets(insert: bool, t: Table, rows: seq<Row>, rows': seq<Row>, n: nat, id: string,
                                         now: Time)
    requires n <= |rows| == |rows'|
    requires forall i :: 0 <= i < n ==> rows'[i] == rows[i].(referringUserId := rows'[i].referringUserId)
    ensures Stored(insert, t, rows', n, id, now) == Stored(insert, t, rows, n, id, now)
  {
    if n != 0 {
      StoredForgets(insert, t, rows, rows', n - 1, id, now);
    }
  }

  ghost function Pointing(r: Option<Related>, referrer: User?): Option<Related> {
    if r.None? then Some(Related(referrer, [])) else Some(r.value.(ReferringUser := referrer))
  }

  ghost function Listing(r: Option<Related>, users: seq<User>): Option<Related> {
    if r.None? then Some(Related(null, users))
    else Some(r.value.(ReferringUserUsers := r.value.ReferringUserUsers + users))
  }

  /** The relation struct of u after the related objects were added to o. */
  ghost function Added(u: User, r: Option<Related>, o: User, related: set<User>, list: seq<User>): Option<Related> {
    var s := if u == o then Listing(r, list) else r;
    if u in related then Pointing(s, o) else s
  }

  /** The pointer half of AddReferringUserUsers. */
  method LinkAll(o: User, related: seq<User>, ghost all: set<User>, ghost was: map<User, Option<Related>>)
    requires o in all && forall i :: 0 <= i < |related| ==> related[i] in all
    requires was.Keys == all && forall u :: u in all ==> u.R == was[u]
    modifies all`R
    ensures forall u :: u in all ==> u.R == Added(u, was[u], o, FirstOf(related, |related|), related)
  {
    if o.R.None? {
      o.R := Some(Related(null, related));
    } else {
      o.R := Some(o.R.value.(ReferringUserUsers := o.R.value.ReferringUserUsers + related));
    }
    for i := 0 to |related|
      invariant forall u :: u in all ==> u.R == Added(u, was[u], o, FirstOf(related, i), related)
    {
      var rel := related[i];
      if rel.R.None? {
        rel.R := Some(Related(o, []));
      } else {
        rel.R := Some(rel.R.value.(ReferringUser := o));
      }
    }
  }

  /** The constraints allow the statement for one related row. */
  ghost predicate Accepts(insert: bool, t: Table, row: Row, id: string, now: Time) {
    if insert then row.id !in t && Sound(t[row.id := NewRow(true, row, id, now)]) else row.id !in t || id in t
  }

  lemma AcceptsForgets(insert: bool, t: Table, rows: seq<Row>, rows': seq<Row>, id: string, now: Time)
    requires |rows| == |rows'|
    requires forall i :: 0 <= i < |rows| ==> rows'[i] == rows[i].(referringUserId := rows'[i].referringUserId)
    ensures forall i :: 0 <= i < |rows| ==>
              (Accepts(insert, t, rows'[i], id, now) <==> Accepts(insert, t, rows[i], id, now))
  {
    assert forall i :: 0 <= i < |rows| ==> NewRow(insert, rows'[i], id, now) == NewRow(insert, rows[i], id, now);
  }

  /** Without insertion, they refuse a row only if it is there and the id is not. */
  lemma {:induction false} UpdateAccepted(t: Table, rows: seq<Row>, n: nat, id: string, now: Time, row: Row)
    requires n <= |rows|
    ensures Accepts(false, Stored(false, t, rows, n, id, now), row, id, now) <==> row.id !in t || id in t
  {
    if n != 0 {
      UpdateAccepted(t, rows, n - 1, id, now, row);
    }
  }

  /** One round of the table half of AddReferringUserUsers; row is what rel held before any round touched it. */
  method StoreOne(db: DB, up: bool, id: string, insert: bool, rel: User, now: Time, ghost row: Row) returns (ok: bool)
    requires db.Valid()
    requires rel.row == row || rel.row == NewRow(insert, row, id, now)
    modifies db, rel`row
    ensures db.Valid()
    ensures rel.row == row || rel.row == NewRow(insert, row, id, now)
    ensures ok ==> rel.row == NewRow(insert, row, id, now)
    ensures ok <==> up && Accepts(insert, old(db.table), row, id, now)
    ensures db.table == if ok then Stored(insert, old(db.table), [row], 1, id, now) else old(db.table)
  {
    assert Stored(insert, db.table, [row], 0, id, now) == db.table;
    if insert {
      rel.row := NewRow(true, rel.row, id, now);
      ok := db.Insert(up, rel.row);
      if !ok {
        return;
      }
    } else {
      ok := db.SetReferrer(up, rel.row.id, Some(id));
      if !ok {
        return;
      }
      rel.row := rel.row.(referringUserId := Some(id));
    }
  }

  lemma StoredStep(insert: bool, t: Table, rows: seq<Row>, n: nat, id: string, now: Time)
    requires n < |rows|
    ensures Stored(insert, t, rows, n + 1, id, now) ==
            Stored(insert, Stored(insert, t, rows, n, id, now), [rows[n]], 1, id, now)
  {
    var u := Stored(insert, t, rows, n, id, now);
    assert Stored(insert, u, [rows[n]], 0, id, now) == u;
  }

  /**
   The table half of AddReferringUserUsers. The rows are stored one by one, up to the first that is not; while the
   connection is up, that is one which the constraints do not allow.
   */
  method StoreAll(db: DB, up: bool, o: User, insert: bool, related: seq<User>, now: Time,
                  ghost all: set<User>, ghost was: map<User, Row>, ghost will: map<User, Row>)
    returns (ok: bool, ghost stored: nat)
    requires db.Valid() && o in all && forall i :: 0 <= i < |related| ==> related[i] in all
    requires was.Keys == will.Keys == all && forall u :: u in all ==> u.row == was[u]
    requires forall u :: u in all ==> will[u] == NewRow(insert, was[u], was[o].id, now)
    modifies db, all`row
    ensures db.Valid()
    ensures ok ==> forall u :: u in all ==> u.row == if u in FirstOf(related, |related|) then will[u] else was[u]
    ensures stored <= |related| && (ok <==> stored == |related|)
    ensures db.table == Stored(insert, old(db.table), RowsIn(related, was), stored, was[o].id, now)
    ensures up && !ok ==> !Accepts(insert, db.table, was[related[stored]], was[o].id, now)
  {
    ghost var rows, id, t := RowsIn(related, was), was[o].id, db.table;
    ghost var done: set<User> := {};
    for i := 0 to |related|
      invariant db.Valid() && db.table == Stored(insert, t, rows, i, id, now)
      invariant done == FirstOf(related, i) && forall u :: u in all ==> u.row == if u in done then will[u] else was[u]
    {
      ghost var rel := related[i];
      assert rel in all && o.row.id == id && rows[i] == was[rel];
      StoredStep(insert, t, rows, i, id, now);
      var works: bool := *;
      ok := StoreOne(db, up || works, o.row.id, insert, related[i], now, was[rel]);
      if !ok {
        stored := i;
        return;
      }
      assert rel.row == will[rel];
      done := done + {rel};
    }
    ok, stored := true, |related|;
  }

  ghost function RowsIn(users: seq<User>, was: map<User, Row>): seq<Row>
    requires forall i :: 0 <= i < |users| ==> users[i] in was
  {
    seq(|users|, i requires 0 <= i < |users| => was[users[i]])
  }

  /** What SetReferringUserUsers does to the objects it finds in the old list. */
  ghost function DroppedRow(row: Row, listed: bool): Row {
    if listed then row.(referringUserId := None) else row
  }

  ghost function Dropped(r: Option<Related>, listed: bool): Option<Related> {
    if listed && r.Some? then Some(r.value.(ReferringUser := null)) else r
  }

  /** The object no longer refers to anyone; it need not have a relation struct. */
  method Forget(rel: User)
    modifies rel
    ensures rel.row == DroppedRow(old(rel.row), true) && rel.R == Dropped(old(rel.R), true)
  {
    rel.row := rel.row.(referringUserId := None);
    if rel.R.Some? {
      rel.R := Some(rel.R.value.(ReferringUser := null));
    }
  }

  method DropAll(list: seq<User>, ghost all: set<User>, ghost was: map<User, Row>, ghost wasR: map<User,
                 Option<Related>>)
    requires forall i :: 0 <= i < |list| ==> list[i] in all
    requires was.Keys == wasR.Keys == all && forall u :: u in all ==> u.row == was[u] && u.R == wasR[u]
    modifies all
    ensures forall u :: u in all ==> u.row == DroppedRow(was[u], u in FirstOf(list, |list|))
    ensures forall u :: u in all ==> u.R == Dropped(wasR[u], u in FirstOf(list, |list|))
  {
    for i := 0 to |list|
      invariant forall u :: u in all ==> u.row == DroppedRow(was[u], u in FirstOf(list, i))
      invariant forall u :: u in all ==> u.R == Dropped(wasR[u], u in FirstOf(list, i))
    {
      Forget(list[i]);
    }
  }

  /** Adds related objects to those that o refers, in the table and in memory. */
  method AddReferringUserUsers(db: DB, up: bool, o: User, insert: bool, related: seq<User>, now: Time,
                               ghost all: set<User>) returns (ok: bool, ghost stored: nat)
    requires db.Valid() && o in all && Objects(related) <= all
    modifies db, all
    ensures db.Valid()
    ensures !ok ==> forall u :: u in all ==> u.R == old(u.R)
    ensures ok ==> forall u :: u in all ==>
              u.row == if u in Objects(related) then NewRow(insert, old(u.row), old(o.row.id), now) else old(u.row)
    ensures ok ==> forall u :: u in all ==> u.R == Added(u, old(u.R), o, Objects(related), related)
    ensures stored <= |related| && (ok <==> stored == |related|)
    ensures db.table == Stored(insert, old(db.table), old(RowsOf(related)), stored, old(o.row.id), now)
    ensures up && !ok ==> !Accepts(insert, db.table, old(RowsOf(related))[stored], old(o.row.id), now)
  {
    ghost var was := map u | u in all :: u.row;
    ghost var will := map u | u in all :: NewRow(insert, u.row, o.row.id, now);
    ghost var wasR := map u | u in all :: u.R;
    assert RowsIn(related, was) == RowsOf(related);
    FirstOfIsObjects(related);
    ok, stored := StoreAll(db, up, o, insert, related, now, all, was, will);
    if ok {
      LinkAll(o, related, all, wasR);
    }
  }

  /** The relation struct of u once o's old list was dropped. */
  ghost function Cleared(r: Option<Related>, listed: bool, isO: bool): Option<Related> {
    var s := Dropped(r, listed);
    if isO && s.Some? then Some(s.value.(ReferringUserUsers := [])) else s
  }

  /** The memory half of forgetting: what o lists no longer refers to anyone, and o lists nobody. */
  method ForgetListed(o: User, ghost all: set<User>, ghost was: map<User, Row>, ghost wasR: map<User,
                      Option<Related>>, ghost list: set<User>,
                      ghost related: seq<User>, ghost rows: seq<Row>)
    requires rows == RowsOf(related) && Objects(related) <= all
    requires o in all && list == Objects(o.Referred()) && list <= all
    requires was.Keys == wasR.Keys == all && forall u :: u in all ==> u.row == was[u] && u.R == wasR[u]
    modifies all
    ensures forall u :: u in all ==> u.row == DroppedRow(was[u], u in list)
    ensures forall u :: u in all ==> u.R == Cleared(wasR[u], u in list, u == o)
    ensures forall i :: 0 <= i < |related| ==>
              related[i].row == rows[i].(referringUserId := related[i].row.referringUserId)
  {
    assert forall i :: 0 <= i < |related| ==> related[i] in all && rows[i] == was[related[i]];
    if o.R.Some? {
      FirstOfIsObjects(o.R.value.ReferringUserUsers);
      DropAll(o.R.value.ReferringUserUsers, all, was, wasR);
      o.R := Some(o.R.value.(ReferringUserUsers := []));
    }
  }

  /** The second half of SetReferringUserUsers, told in terms of the rows that the related objects had at first. */
  method AddForgotten(db: DB, up: bool, o: User, insert: bool, related: seq<User>, now: Time, ghost all: set<User>,
                      ghost rows: seq<Row>, ghost id: string) returns (ok: bool, ghost stored: nat)
    requires db.Valid() && o in all && Objects(related) <= all && o.row.id == id && |rows| == |related|
    requires forall i :: 0 <= i < |related| ==>
               related[i].row == rows[i].(referringUserId := related[i].row.referringUserId)
    modifies db, all
    ensures db.Valid()
    ensures ok ==> forall u :: u in all ==>
              u.row == if u in Objects(related) then NewRow(insert, old(u.row), id, now) else old(u.row)
    ensures ok ==> forall u :: u in all ==> u.R == Added(u, old(u.R), o, Objects(related), related)
    ensures stored <= |related| && (ok <==> stored == |related|)
    ensures db.table == Stored(insert, old(db.table), rows, stored, id, now)
    ensures up && !ok ==> !Accepts(insert, db.table, rows[stored], id, now)
  {
    ghost var t, rows' := db.table, RowsOf(related);
    ok, stored := AddReferringUserUsers(db, up, o, insert, related, now, all);
    StoredForgets(insert, t, rows, rows', stored, id, now);
    AcceptsForgets(insert, db.table, rows, rows', id, now);
  }

  /** Makes the related objects the only ones that o refers, in the table and in memory. */
  method SetReferringUserUsers(db: DB, up: bool, o: User, insert: bool, related: seq<User>, now: Time,
                               ghost all: set<User>) returns (ok: bool, ghost stored: nat)
    requires db.Valid() && o in all && Objects(related) <= all && Objects(o.Referred()) <= all
    modifies db, all
    ensures db.Valid()
    ensures ok ==> forall u :: u in all ==>
              u.row == if u in Objects(related) then NewRow(insert, old(u.row), old(o.row.id), now)
                       else if u in Objects(old(o.Referred())) then old(u.row).(referringUserId := None)
                       else old(u.row)
    ensures ok ==> forall u :: u in all ==>
              u.R == Added(u, Cleared(old(u.R), u in Objects(old(o.Referred())), u == o), o, Objects(related), related)
    ensures stored <= |related| && (ok ==> stored == |related|)
    ensures var id, rows := old(o.row.id), old(RowsOf(related));
            ok || up ==> db.table == Stored(insert, ClearReferrer(old(db.table), id), rows, stored, id, now)
    ensures up && !ok ==>
              stored < |related| && !Accepts(insert, db.table, old(RowsOf(related))[stored], old(o.row.id), now)
  {
    ghost var was: map<User, Row> := map u | u in all :: u.row;
    ghost var wasR: map<User, Option<Related>> := map u | u in all :: u.R;
    ghost var list, rows := Objects(o.Referred()), RowsOf(related);
    var works: bool := *;
    ok := db.ClearReferrer(up || works, o.row.id);
    if !ok {
      stored := 0;
      return;
    }
    ForgetListed(o, all, was, wasR, list, related, rows);
    ok, stored := AddForgotten(db, up, o, insert, related, now, all, rows, was[o].id);
  }

  /** The table after the referrer of the first n ids was set. */
  function Assigned(t: Table, ids: seq<string>, n: nat, referrer: Option<string>): Table
    requires n <= |ids|
  {
    if n == 0 then t else SetReferrer(Assigned(t, ids, n - 1, referrer), ids[n - 1], referrer)
  }

  /** The loop of RemoveReferringUserUsers over the objects and their rows. */
  method ForgetAll(db: DB, up: bool, related: seq<User>, ghost all: set<User>, ghost ids: seq<string>,
                   ghost was: map<User, Row>, ghost wasR: map<User, Option<Related>>) returns (ok: bool)
    requires db.Valid() && |ids| == |related|
    requires was.Keys == wasR.Keys == all && forall u :: u in all ==> u.row == was[u] && u.R == wasR[u]
    requires forall i :: 0 <= i < |related| ==> related[i] in all && was[related[i]].id == ids[i]
    modifies db, all
    ensures db.Valid()
    ensures ok ==> forall u :: u in all ==> u.row == DroppedRow(was[u], u in FirstOf(related, |related|))
    ensures ok ==> forall u :: u in all ==> u.R == Dropped(wasR[u], u in FirstOf(related, |related|))
    ensures ok ==> db.table == Assigned(old(db.table), ids, |ids|, None)
    ensures up ==> ok
  {
    ok := true;
    for i := 0 to |related|
      invariant db.Valid() && db.table == Assigned(old(db.table), ids, i, None)
      invariant forall u :: u in all ==> u.row == DroppedRow(was[u], u in FirstOf(related, i))
      invariant forall u :: u in all ==> u.R == Dropped(wasR[u], u in FirstOf(related, i))
    {
      Forget(related[i]);
      var works: bool := *;
      SetReferrerSound(db.table, related[i].row.id, None);
      ok := db.SetReferrer(up || works, related[i].row.id, None);
      if !ok {
        return;
      }
    }
  }

  /** The inner loop of the removal: the last element takes the place of the first match. */
  method RemoveFrom(list: seq<User>, rel: User) returns (left: seq<User>)
    ensures left == Removed(list, rel)
  {
    left := list;
    for i := 0 to |list|
      invariant left == list && forall k :: 0 <= k < i ==> list[k] != rel
    {
      if rel != list[i] {
        continue;
      }
      PositionIs(list, rel, i);
      var ln := |list|;
      if ln > 1 && i < ln - 1 {
        left := left[i := left[ln - 1]];
      }
      left := left[..ln - 1];
      return;
    }
    PositionIs(list, rel, |list|);
  }

  /** The loop of RemoveReferringUserUsers over o's list. */
  method Shrink(o: User, related: seq<User>)
    requires o.R.Some?
    modifies o`R
    ensures var left := RemovedAll(old(o.R.value.ReferringUserUsers), related, |related|);
            o.R == Some(old(o.R.value).(ReferringUserUsers := left))
  {
    ghost var was := o.R.value;
    for j := 0 to |related|
      invariant o.R == Some(was.(ReferringUserUsers := RemovedAll(was.ReferringUserUsers, related, j)))
    {
      var left := RemoveFrom(o.R.value.ReferringUserUsers, related[j]);
      o.R := Some(o.R.value.(ReferringUserUsers := left));
    }
  }

  /** The relation struct of u after the related objects were removed from o. */
  ghost function Shrunk(r: Option<Related>, listed: bool, isO: bool, related: seq<User>): Option<Related> {
    var s := Dropped(r, listed);
    if !isO || s.None? then s
    else Some(s.value.(ReferringUserUsers := RemovedAll(s.value.ReferringUserUsers, related, |related|)))
  }

  /** Takes the referrer away from the related objects, and them out of the list of o. */
  method RemoveReferringUserUsers(db: DB, up: bool, o: User, related: seq<User>, ghost all: set<User>)
    returns (ok: bool)
    requires db.Valid() && o in all && Objects(related) <= all
    modifies db, all
    ensures db.Valid()
    ensures ok ==> forall u :: u in all ==> u.row == DroppedRow(old(u.row), u in Objects(related))
    ensures ok ==> forall u :: u in all ==> u.R == Shrunk(old(u.R), u in Objects(related), u == o, related)
    ensures ok ==> db.table == Assigned(old(db.table), old(IdsOf(RowsOf(related))), |related|, None)
    ensures up ==> ok
  {
    ghost var was: map<User, Row> := map u | u in all :: u.row;
    ghost var wasR: map<User, Option<Related>> := map u | u in all :: u.R;
    if |related| == 0 {
      return true;
    }
    FirstOfIsObjects(related);
    ok := ForgetAll(db, up, related, all, IdsOf(RowsOf(related)), was, wasR);
    if !ok || o.R.None? {
      return;
    }
    Shrink(o, related);
  }

  /** Inserting an object fills in its creation time. */
  function Created(insert: bool, row: Row, now: Time): Row {
    if insert && row.createdAt == 0 then row.(createdAt := now) else row
  }

  /** The table after the (inserted) referrer was set for the given id. */
  function WithReferrer(insert: bool, t: Table, referrer: Row, id: string): Table {
    SetReferrer(if insert then t[referrer.id := referrer] else t, id, Some(referrer.id))
  }

  /** The constraints allow the insertion, if there is one, and setting the referrer. */
  ghost predicate AcceptsReferrer(insert: bool, t: Table, referrer: Row, id: string) {
    && (insert ==> referrer.id !in t && Sound(t[referrer.id := referrer]))
    && (insert || id !in t || referrer.id in t)
  }

  /** Makes related the referrer of o, in the table and in memory; the two may be the same object. */
  method SetReferringUser(db: DB, up: bool, o: User, insert: bool, related: User, now: Time) returns (ok: bool)
    requires db.Valid()
    modifies db, o, related
    ensures db.Valid()
    ensures var created := Created(insert, old(related.row), now);
            ok ==> db.table == WithReferrer(insert, old(db.table), created, old(o.row.id))
    ensures var created := Created(insert, old(related.row), now);
            var accepted := AcceptsReferrer(insert, old(db.table), created, old(o.row.id));
            (ok ==> accepted) && (up && accepted ==> ok)
    ensures ok && o != related ==> related.row == Created(insert, old(related.row), now)
    ensures var row := if o == related then Created(insert, old(o.row), now) else old(o.row);
            ok ==> o.row == row.(referringUserId := Some(old(related.row.id)))
    ensures ok ==> o.R == Added(o, old(o.R), related, {o}, [o])
    ensures ok ==> related.R == Added(related, old(related.R), related, {o}, [o])
  {
    assert [] + [o] == [o];
    if insert {
      related.row := Created(true, related.row, now);
      var works: bool := *;
      ok := db.Insert(up || works, related.row);
      if !ok {
        return;
      }
    }
    var works: bool := *;
    ok := db.SetReferrer(up || works, o.row.id, Some(related.row.id));
    if !ok {
      return;
    }
    o.row := o.row.(referringUserId := Some(related.row.id));
    if o.R.None? {
      o.R := Some(Related(related, []));
    } else {
      o.R := Some(o.R.value.(ReferringUser := related));
    }
    if related.R.None? {
      related.R := Some(Related(null, [o]));
    } else {
      related.R := Some(related.R.value.(ReferringUserUsers := related.R.value.ReferringUserUsers + [o]));
    }
  }
}

/** What the referral operations keep: objects' rows, the pointers between them and the table tell the same story. */
module Consistency {
  import Loaders
  import opened Database
  import opened Relations
  import opened SwapRemoval
  import opened UserObjects
  import opened Users
  import opened Wrappers

  /** The object's row names the same referrer as the table's row, if the table has one. */
  ghost predicate Agrees(row: Row, t: Table) {
    row.id in t ==> t[row.id].referringUserId == row.referringUserId
  }

  /** There is at most one object for each id, and each agrees with the table. */
  ghost predicate Rowwise(all: set<User>, rows: map<User, Row>, t: Table) {
    && rows.Keys == all
    && (forall u, v :: u in all && v in all && rows[u].id == rows[v].id ==> u == v)
    && (forall u :: u in all ==> Agrees(rows[u], t))
  }

  /** The object is in the list, names the id and points at o; or it does none of these. */
  ghost predicate InStep(listed: bool, row: Row, r: Option<Related>, o: User, id: string) {
    && (listed <==> row.referringUserId == Some(id))
    && (listed <==> ReferrerIn(r) == o)
  }

  /** o lists exactly the objects that name it, which are exactly those that point at it. */
  ghost predicate Linked(o: User, all: set<User>, rows: map<User, Row>, Rs: map<User, Option<Related>>) {
    && o in all && rows.Keys == Rs.Keys == all
    && (forall u :: u in all ==> InStep(u in ReferredIn(Rs[o]), rows[u], Rs[u], o, rows[o].id))
    && (forall u :: u in ReferredIn(Rs[o]) ==> u in all)
  }

  /** Rows, pointers and table tell the same story about the objects that o refers. */
  ghost predicate Consistent(o: User, all: set<User>, rows: map<User, Row>, Rs: map<User, Option<Related>>, t: Table) {
    Rowwise(all, rows, t) && Linked(o, all, rows, Rs)
  }

  /** Only the rows with a related id change, and they come to name the id. */
  lemma {:induction false} StoredRow(insert: bool, t: Table, rows: seq<Row>, n: nat, id: string, now: Time, k: string)
    requires n <= |rows|
    ensures var s := Stored(insert, t, rows, n, id, now);
            && (k in s <==> k in t || (insert && k in IdsOf(rows)[..n]))
            && (k in t && k !in IdsOf(rows)[..n] ==> s[k] == t[k])
            && (k in s && k in IdsOf(rows)[..n] ==> s[k].referringUserId == Some(id))
            && (!insert && k in t && k in IdsOf(rows)[..n] ==> s[k] == t[k].(referringUserId := Some(id)))
  {
    if n != 0 {
      StoredRow(insert, t, rows, n - 1, id, now, k);
      assert IdsOf(rows)[..n] == IdsOf(rows)[..n - 1] + [rows[n - 1].id];
    }
  }

  /** Replacing the referred users of an id: exactly the related rows name it, and nobody else changes. */
  lemma ReplacedChildren(t: Table, rows: seq<Row>, id: string, now: Time, k: string)
    ensures var s := Stored(false, ClearReferrer(t, id), rows, |rows|, id, now);
            && (k in s <==> k in t)
            && (k in t ==> (s[k].referringUserId == Some(id) <==> k in IdsOf(rows)))
            && (k in t ==> s[k] == if k in IdsOf(rows) then t[k].(referringUserId := Some(id))
                                   else if t[k].referringUserId == Some(id) then t[k].(referringUserId := None)
                                   else t[k])
  {
    StoredRow(false, ClearReferrer(t, id), rows, |rows|, id, now, k);
    assert IdsOf(rows)[..|rows|] == IdsOf(rows);
  }

  /** Where each object has its own id, the related ids are the ids of the related objects. */
  lemma RelatedIds(all: set<User>, rows: map<User, Row>, related: seq<User>, u: User)
    requires rows.Keys == all && u in all && Objects(related) <= all
    requires forall v, w :: v in all && w in all && rows[v].id == rows[w].id ==> v == w
    ensures rows[u].id in IdsOf(RowsIn(related, rows)) <==> u in Objects(related)
  {
    var ids := IdsOf(RowsIn(related, rows));
    if u in related {
      var i :| 0 <= i < |related| && related[i] == u;
      assert ids[i] == rows[u].id;
    }
    if rows[u].id in ids {
      var i :| 0 <= i < |ids| && ids[i] == rows[u].id;
      assert related[i] == u;
    }
  }

  /** The rows of the objects after the related ones were added to o. */
  ghost function AddedRows(insert: bool, rows: map<User, Row>, related: seq<User>, id: string, now: Time): map<User,
                           Row> {
    map u | u in rows :: if u in Objects(related) then NewRow(insert, rows[u], id, now) else rows[u]
  }

  ghost function AddedRs(Rs: map<User, Option<Related>>, o: User, related: seq<User>): map<User, Option<Related>> {
    map u | u in Rs :: Added(u, Rs[u], o, Objects(related), related)
  }

  lemma AddKeepsRows(insert: bool, all: set<User>, rows: map<User, Row>, t: Table, related: seq<User>, id: string,
                     now: Time)
    requires Rowwise(all, rows, t) && Objects(related) <= all
    ensures Rowwise(all, AddedRows(insert, rows, related, id, now),
                    Stored(insert, t, RowsIn(related, rows), |related|, id, now))
  {
    var stored := RowsIn(related, rows);
    assert IdsOf(stored)[..|related|] == IdsOf(stored);
    assert forall u :: u in all ==> AddedRows(insert, rows, related, id, now)[u].id == rows[u].id;
    forall u | u in all
      ensures Agrees(AddedRows(insert, rows, related, id, now)[u], Stored(insert, t, stored, |related|, id, now))
    {
      RelatedIds(all, rows, related, u);
      StoredRow(insert, t, stored, |related|, id, now, rows[u].id);
    }
  }

  /** An object that is in step with o stays so. */
  lemma AddedInStep(insert: bool, list: seq<User>, row: Row, r: Option<Related>, o: User, id: string,
                    u: User, related: seq<User>, now: Time)
    requires InStep(u in list, row, r, o, id)
    ensures InStep(u in list + related, if u in Objects(related) then NewRow(insert, row, id, now) else row,
                   Added(u, r, o, Objects(related), related), o, id)
  {
  }

  lemma AddedListed(list: seq<User>, related: seq<User>, all: set<User>)
    requires (forall u :: u in list ==> u in all) && Objects(related) <= all
    ensures forall u :: u in list + related ==> u in all
  {
  }

  /** Adding keeps objects, pointers and table in agreement. */
  lemma AddKeepsConsistent(insert: bool, o: User, all: set<User>, rows: map<User, Row>, Rs: map<User,
                           Option<Related>>, t: Table,
                           related: seq<User>, now: Time)
    requires Consistent(o, all, rows, Rs, t) && Objects(related) <= all
    ensures var id := rows[o].id;
            Consistent(o, all, AddedRows(insert, rows, related, id, now), AddedRs(Rs, o, related),
                       Stored(insert, t, RowsIn(related, rows), |related|, id, now))
  {
    var id, list := rows[o].id, ReferredIn(Rs[o]);
    AddKeepsRows(insert, all, rows, t, related, id, now);
    assert ReferredIn(AddedRs(Rs, o, related)[o]) == list + related;
    AddedListed(list, related, all);
    forall u: User | u in all {
      AddedInStep(insert, list, rows[u], Rs[u], o, id, u, related, now);
    }
  }

  ghost function ForgottenRows(rows: map<User, Row>, listed: set<User>): map<User, Row> {
    map u | u in rows :: DroppedRow(rows[u], u in listed)
  }

  ghost function ClearedRs(Rs: map<User, Option<Related>>, o: User, listed: set<User>): map<User, Option<Related>> {
    map u | u in Rs :: Cleared(Rs[u], u in listed, u == o)
  }

  /** So does the first half of SetReferringUserUsers, after which o refers to nobody. */
  lemma ClearKeepsConsistent(o: User, all: set<User>, rows: map<User, Row>, Rs: map<User, Option<Related>>, t: Table)
    requires Consistent(o, all, rows, Rs, t)
    ensures var listed := Objects(ReferredIn(Rs[o]));
            && Consistent(o, all, ForgottenRows(rows, listed), ClearedRs(Rs, o, listed), ClearReferrer(t, rows[o].id))
            && ReferredIn(ClearedRs(Rs, o, listed)[o]) == []
  {
    var listed := Objects(ReferredIn(Rs[o]));
    var Rs' := ClearedRs(Rs, o, listed);
    assert ReferredIn(Rs'[o]) == [];
    forall u | u in all
      ensures Agrees(ForgottenRows(rows, listed)[u], ClearReferrer(t, rows[o].id)) && ReferrerIn(Rs'[u]) != o
    {
      assert Agrees(rows[u], t);
    }
  }

  /** The rows of the objects after the related ones replaced those that o referred. */
  ghost function ReplacedRows(insert: bool, rows: map<User, Row>, listed: set<User>, related: seq<User>, id: string,
                              now: Time)
    : map<User, Row>
  {
    map u | u in rows ::
      if u in Objects(related) then NewRow(insert, rows[u], id, now)
      else if u in listed then rows[u].(referringUserId := None)
      else rows[u]
  }

  ghost function ReplacedRs(Rs: map<User, Option<Related>>, o: User, listed: set<User>,
                            related: seq<User>): map<User, Option<Related>> {
    map u | u in Rs :: Added(u, Cleared(Rs[u], u in listed, u == o), o, Objects(related), related)
  }

  /** Replacing is forgetting and then adding. */
  lemma ReplacedIsForgottenAndAdded(insert: bool, o: User, rows: map<User, Row>, Rs: map<User, Option<Related>>,
                                    listed: set<User>,
                                    related: seq<User>, id: string, now: Time)
    ensures AddedRows(insert, ForgottenRows(rows, listed), related, id, now) ==
            ReplacedRows(insert, rows, listed, related, id, now)
    ensures AddedRs(ClearedRs(Rs, o, listed), o, related) == ReplacedRs(Rs, o, listed, related)
  {
  }

  /** Replacing keeps everything in agreement, old and new objects overlapping or not. */
  lemma SetKeepsConsistent(insert: bool, o: User, all: set<User>, rows: map<User, Row>, Rs: map<User,
                           Option<Related>>, t: Table,
                           related: seq<User>, now: Time)
    requires Consistent(o, all, rows, Rs, t) && Objects(related) <= all
    ensures var id, listed := rows[o].id, Objects(ReferredIn(Rs[o]));
            Consistent(o, all, ReplacedRows(insert, rows, listed, related, id, now), ReplacedRs(Rs, o, listed, related),
                       Stored(insert, ClearReferrer(t, id), RowsIn(related, rows), |related|, id, now))
  {
    var id, listed := rows[o].id, Objects(ReferredIn(Rs[o]));
    var rows1, t1 := ForgottenRows(rows, listed), ClearReferrer(t, id);
    ClearKeepsConsistent(o, all, rows, Rs, t);
    AddKeepsConsistent(insert, o, all, rows1, ClearedRs(Rs, o, listed), t1, related, now);
    StoredForgets(insert, t1, RowsIn(related, rows), RowsIn(related, rows1), |related|, id, now);
    ReplacedIsForgottenAndAdded(insert, o, rows, Rs, listed, related, id, now);
  }

  /** After replacing, o lists just the new objects. */
  lemma SetListsRelated(o: User, Rs: map<User, Option<Related>>, related: seq<User>)
    requires o in Rs
    ensures ReferredIn(ReplacedRs(Rs, o, Objects(ReferredIn(Rs[o])), related)[o]) == related
  {
    assert [] + related == related;
  }

  lemma {:induction false} AssignedRow(t: Table, ids: seq<string>, n: nat, referrer: Option<string>, k: string)
    requires n <= |ids|
    ensures var s := Assigned(t, ids, n, referrer);
            && (k in s <==> k in t)
            && (k in t ==> s[k] == if k in ids[..n] then t[k].(referringUserId := referrer) else t[k])
  {
    if n != 0 {
      AssignedRow(t, ids, n - 1, referrer, k);
      assert ids[..n] == ids[..n - 1] + [ids[n - 1]];
    }
  }

  lemma RemoveKeepsRows(all: set<User>, rows: map<User, Row>, t: Table, related: seq<User>)
    requires Rowwise(all, rows, t) && Objects(related) <= all
    ensures Rowwise(all, ForgottenRows(rows, Objects(related)),
                    Assigned(t, IdsOf(RowsIn(related, rows)), |related|, None))
  {
    var ids := IdsOf(RowsIn(related, rows));
    assert ids[..|related|] == ids;
    forall u | u in all
      ensures Agrees(ForgottenRows(rows, Objects(related))[u], Assigned(t, ids, |related|, None))
    {
      RelatedIds(all, rows, related, u);
      AssignedRow(t, ids, |related|, None, rows[u].id);
    }
  }

  ghost function ShrunkRs(Rs: map<User, Option<Related>>, o: User, related: seq<User>): map<User, Option<Related>> {
    map u | u in Rs :: Shrunk(Rs[u], u in Objects(related), u == o, related)
  }

  function Times(users: seq<User>, u: User): nat {
    multiset(users)[u]
  }

  /** What the removal leaves in a list. */
  lemma LeftIn(list: seq<User>, related: seq<User>, u: User)
    ensures u in RemovedAll(list, related, |related|) <==> Times(list, u) > Times(related, u)
  {
    RemovedAllBag(list, related, |related|);
    assert related[..|related|] == related;
    assert u in RemovedAll(list, related, |related|) <==> u in multiset(RemovedAll(list, related, |related|));
  }

  /** An object is in step after the removal exactly if it is not both removed and still listed. */
  lemma RemovedInStep(list: seq<User>, related: seq<User>, row: Row, r: Option<Related>, o: User, id: string, u: User)
    requires InStep(u in list, row, r, o, id)
    ensures var listed, asked := u in RemovedAll(list, related, |related|), u in Objects(related);
            InStep(listed, DroppedRow(row, asked), Shrunk(r, asked, u == o, related), o, id)
            <==> (u in related ==> Times(list, u) <= Times(related, u))
  {
    LeftIn(list, related, u);
  }

  /** Removing keeps everything in agreement exactly if no removed object was listed more often than asked for. */
  lemma RemoveKeepsConsistent(o: User, all: set<User>, rows: map<User, Row>, Rs: map<User, Option<Related>>,
                              t: Table, related: seq<User>)
    requires Consistent(o, all, rows, Rs, t) && Objects(related) <= all
    ensures Consistent(o, all, ForgottenRows(rows, Objects(related)), ShrunkRs(Rs, o, related),
                       Assigned(t, IdsOf(RowsIn(related, rows)), |related|, None))
            <==> forall u :: u in related ==> Times(ReferredIn(Rs[o]), u) <= Times(related, u)
  {
    RemoveKeepsRows(all, rows, t, related);
    var list := ReferredIn(Rs[o]);
    RemovedFromNone(related, |related|);
    assert ReferredIn(ShrunkRs(Rs, o, related)[o]) == RemovedAll(list, related, |related|);
    forall u: User | u in all {
      RemovedInStep(list, related, rows[u], Rs[u], o, rows[o].id, u);
    }
    forall u | u in RemovedAll(list, related, |related|)
      ensures u in all
    {
      LeftIn(list, related, u);
      assert u in list;
    }
  }

  lemma {:induction false} RemovedFromNone(related: seq<User>, n: nat)
    requires n <= |related|
    ensures RemovedAll([], related, n) == []
  {
    if n != 0 {
      RemovedFromNone(related, n - 1);
    }
  }

  /** The rows after SetReferringUser: that of the referrer may be new, that of o names it. */
  ghost function ReferredRows(insert: bool, rows: map<User, Row>, o: User, referrer: User, now: Time): map<User, Row>
    requires referrer in rows
  {
    var rows1 := rows[referrer := Created(insert, rows[referrer], now)];
    map u | u in rows1 :: if u == o then rows1[o].(referringUserId := Some(rows[referrer].id)) else rows1[u]
  }

  /** Setting o's referrer keeps what the referrer lists in agreement, even when o is its own referrer. */
  lemma SetReferrerKeepsConsistent(insert: bool, o: User, referrer: User, all: set<User>, rows: map<User, Row>,
                                   Rs: map<User, Option<Related>>, t: Table, now: Time)
    requires Consistent(referrer, all, rows, Rs, t) && o in all
    ensures Consistent(referrer, all, ReferredRows(insert, rows, o, referrer, now), AddedRs(Rs, referrer, [o]),
                       WithReferrer(insert, t, Created(insert, rows[referrer], now), rows[o].id))
  {
    var row := Created(insert, rows[referrer], now);
    var rows1, t1 := rows[referrer := row], if insert then t[row.id := row] else t;
    CreateKeepsConsistent(insert, referrer, referrer, all, rows, Rs, t, now);
    AddKeepsConsistent(false, referrer, all, rows1, Rs, t1, [o], now);
    AddedAlone(rows1, t1, o, row.id, now);
  }

  /** What adding o alone to the users that the id refers does to rows and table. */
  lemma AddedAlone(rows: map<User, Row>, t: Table, o: User, id: string, now: Time)
    requires o in rows
    ensures AddedRows(false, rows, [o], id, now) ==
            map u | u in rows :: if u == o then rows[o].(referringUserId := Some(id)) else rows[u]
    ensures Stored(false, t, RowsIn([o], rows), |[o]|, id, now) == SetReferrer(t, rows[o].id, Some(id))
  {
    assert Stored(false, t, RowsIn([o], rows), 0, id, now) == t;
  }

  /** Inserting an object keeps what any p lists in agreement. */
  lemma CreateKeepsConsistent(insert: bool, o: User, p: User, all: set<User>, rows: map<User, Row>,
                              Rs: map<User, Option<Related>>, t: Table, now: Time)
    requires Consistent(p, all, rows, Rs, t) && o in all
    ensures var row := Created(insert, rows[o], now);
            Consistent(p, all, rows[o := row], Rs, if insert then t[row.id := row] else t)
  {
    var row := Created(insert, rows[o], now);
    var rows1, t1 := rows[o := row], if insert then t[row.id := row] else t;
    assert rows1[p].id == rows[p].id;
    forall u | u in all
      ensures InStep(u in ReferredIn(Rs[p]), rows1[u], Rs[u], p, rows[p].id) && Agrees(rows1[u], t1)
    {
      assert InStep(u in ReferredIn(Rs[p]), rows[u], Rs[u], p, rows[p].id) && Agrees(rows[u], t);
    }
  }

  /** An object that is in step with p stays so exactly if it is not both added to another o and listed by p. */
  lemma AddedElsewhere(insert: bool, listed: bool, asked: bool, row: Row, r: Option<Related>, p: User, pid: string,
                       o: User, id: string, u: User, related: seq<User>, now: Time)
    requires InStep(listed, row, r, p, pid) && o != p && id != pid && (asked <==> u in Objects(related))
    ensures InStep(listed, if asked then NewRow(insert, row, id, now) else row,
                   Added(u, r, o, Objects(related), related), p, pid)
            <==> !(asked && listed)
  {
  }

  /**
   Another referrer p stays in agreement exactly if none of the objects added to o is listed by p: adding does not take
   an object out of the list of its former referrer.
   */
  lemma AddLeavesOthers(insert: bool, o: User, p: User, all: set<User>, rows: map<User, Row>, Rs: map<User,
                        Option<Related>>, t: Table,
                        related: seq<User>, now: Time)
    requires Consistent(p, all, rows, Rs, t) && o in all && o != p && Objects(related) <= all
    ensures var id := rows[o].id;
            Consistent(p, all, AddedRows(insert, rows, related, id, now), AddedRs(Rs, o, related),
                       Stored(insert, t, RowsIn(related, rows), |related|, id, now))
            <==> forall u :: u in related ==> u !in ReferredIn(Rs[p])
  {
    var id, list := rows[o].id, ReferredIn(Rs[p]);
    AddKeepsRows(insert, all, rows, t, related, id, now);
    assert ReferredIn(AddedRs(Rs, o, related)[p]) == list;
    forall u: User | u in all {
      AddedElsewhere(insert, u in list, u in Objects(related), rows[u], Rs[u], p, rows[p].id, o, id, u, related, now);
    }
  }

  /** The first half of replacing leaves another referrer p alone. */
  lemma ClearLeavesOthers(o: User, p: User, all: set<User>, rows: map<User, Row>, Rs: map<User, Option<Related>>,
                          t: Table)
    requires Consistent(o, all, rows, Rs, t) && Consistent(p, all, rows, Rs, t) && o != p
    ensures var listed := Objects(ReferredIn(Rs[o]));
            && Consistent(p, all, ForgottenRows(rows, listed), ClearedRs(Rs, o, listed), ClearReferrer(t, rows[o].id))
            && ReferredIn(ClearedRs(Rs, o, listed)[p]) == ReferredIn(Rs[p])
  {
    ClearKeepsConsistent(o, all, rows, Rs, t);
    var listed, list := Objects(ReferredIn(Rs[o])), ReferredIn(Rs[p]);
    var rows1, Rs1 := ForgottenRows(rows, listed), ClearedRs(Rs, o, listed);
    assert ReferredIn(Rs1[p]) == list;
    forall u | u in all
      ensures InStep(u in list, rows1[u], Rs1[u], p, rows[p].id)
    {
      assert InStep(u in list, rows[u], Rs[u], p, rows[p].id);
      assert InStep(u in ReferredIn(Rs[o]), rows[u], Rs[u], o, rows[o].id);
    }
  }

  /** Replacing leaves another referrer p in agreement exactly if p lists none of the new objects. */
  lemma SetLeavesOthers(insert: bool, o: User, p: User, all: set<User>, rows: map<User, Row>,
                        Rs: map<User, Option<Related>>, t: Table, related: seq<User>, now: Time)
    requires Consistent(o, all, rows, Rs, t) && Consistent(p, all, rows, Rs, t) && o != p && Objects(related) <= all
    ensures var id, listed := rows[o].id, Objects(ReferredIn(Rs[o]));
            Consistent(p, all, ReplacedRows(insert, rows, listed, related, id, now), ReplacedRs(Rs, o, listed, related),
                       Stored(insert, ClearReferrer(t, id), RowsIn(related, rows), |related|, id, now))
            <==> forall u :: u in related ==> u !in ReferredIn(Rs[p])
  {
    var id, listed := rows[o].id, Objects(ReferredIn(Rs[o]));
    var rows1, t1 := ForgottenRows(rows, listed), ClearReferrer(t, id);
    ClearLeavesOthers(o, p, all, rows, Rs, t);
    AddLeavesOthers(insert, o, p, all, rows1, ClearedRs(Rs, o, listed), t1, related, now);
    StoredForgets(insert, t1, RowsIn(related, rows), RowsIn(related, rows1), |related|, id, now);
    ReplacedIsForgottenAndAdded(insert, o, rows, Rs, listed, related, id, now);
  }

  /** An object that is in step with p stays so exactly if it is not both removed from o and listed by p. */
  lemma RemovedElsewhere(listed: bool, asked: bool, row: Row, r: Option<Related>, p: User, id: string, isO: bool,
                         related: seq<User>)
    requires InStep(listed, row, r, p, id)
    ensures InStep(listed, DroppedRow(row, asked), Shrunk(r, asked, isO, related), p, id) <==> !(asked && listed)
  {
  }

  /** Removing leaves another referrer p in agreement exactly if p lists none of the removed objects. */
  lemma RemoveLeavesOthers(o: User, p: User, all: set<User>, rows: map<User, Row>, Rs: map<User, Option<Related>>,
                           t: Table, related: seq<User>)
    requires Consistent(p, all, rows, Rs, t) && o != p && Objects(related) <= all
    ensures Consistent(p, all, ForgottenRows(rows, Objects(related)), ShrunkRs(Rs, o, related),
                       Assigned(t, IdsOf(RowsIn(related, rows)), |related|, None))
            <==> forall u :: u in related ==> u !in ReferredIn(Rs[p])
  {
    var list := ReferredIn(Rs[p]);
    RemoveKeepsRows(all, rows, t, related);
    assert ReferredIn(ShrunkRs(Rs, o, related)[p]) == list;
    forall u: User | u in all {
      RemovedElsewhere(u in list, u in Objects(related), rows[u], Rs[u], p, rows[p].id, u == o, related);
    }
  }

  /** Setting o's referrer leaves another referrer p in agreement exactly if p does not list o. */
  lemma SetReferrerLeavesOthers(insert: bool, o: User, referrer: User, p: User, all: set<User>, rows: map<User, Row>,
                                Rs: map<User, Option<Related>>, t: Table, now: Time)
    requires Consistent(p, all, rows, Rs, t) && o in all && referrer in all && referrer != p
    ensures Consistent(p, all, ReferredRows(insert, rows, o, referrer, now), AddedRs(Rs, referrer, [o]),
                       WithReferrer(insert, t, Created(insert, rows[referrer], now), rows[o].id))
            <==> o !in ReferredIn(Rs[p])
  {
    var row := Created(insert, rows[referrer], now);
    var rows1, t1 := rows[referrer := row], if insert then t[row.id := row] else t;
    CreateKeepsConsistent(insert, referrer, p, all, rows, Rs, t, now);
    AddLeavesOthers(false, referrer, p, all, rows1, Rs, t1, [o], now);
    AddedAlone(rows1, t1, o, row.id, now);
    assert [o][0] == o;
  }

  /** When all loaded rows name the id of o, it owns them all. */
  lemma LoadedInStep(o: User, id: string, loaded: seq<User>, found: seq<Row>, k: nat, list: seq<User>)
    requires |found| == |loaded| && forall i, j :: 0 <= i < j < |loaded| ==> loaded[i] != loaded[j]
    requires k < |found| && found[k].referringUserId == Some(id)
    requires list == Loaders.OwnedIn(loaded, found, |loaded|, [o], [id], o)
    ensures InStep(loaded[k] in list, found[k],
                   Loaders.Owned(Loaders.Owner([o], [id], found[k].referringUserId)), o, id)
  {
    Loaders.OwnerIs([o], [id], found[k].referringUserId, 0);
    Loaders.OwnedMembers(loaded, found, |loaded|, [o], [id], o, k);
  }

  lemma ListsLoaded(o: User, id: string, loaded: seq<User>, found: seq<Row>)
    requires |found| == |loaded|
    ensures forall u :: u in Loaders.OwnedIn(loaded, found, |loaded|, [o], [id], o) ==> u in loaded
  {
    Loaders.OwnedBefore(loaded, found, |loaded|, [o], [id], o);
    assert loaded[..|loaded|] == loaded;
  }

  /** The rows that name an id agree with the table, and none of them has the id itself. */
  lemma LoadedRows(o: User, rows: map<User, Row>, t: Table, loaded: seq<User>, found: seq<Row>)
    requires Keyed(t) && |found| == |loaded| && rows.Keys == {o} + Objects(loaded)
    requires Agrees(rows[o], t) && rows[o].referringUserId != Some(rows[o].id)
    requires Answers(t, (r: Row) => r.referringUserId.Some? && r.referringUserId.value in [rows[o].id], found)
    requires forall k :: 0 <= k < |loaded| ==> rows[loaded[k]] == found[k]
    ensures Rowwise({o} + Objects(loaded), rows, t)
    ensures forall k :: 0 <= k < |found| ==> found[k].referringUserId == Some(rows[o].id)
  {
    assert forall k :: 0 <= k < |found| ==> found[k].id in t && t[found[k].id] == found[k];
  }

  lemma LinkedWhen(o: User, loaded: seq<User>, rows: map<User, Row>, Rs: map<User, Option<Related>>)
    requires rows.Keys == Rs.Keys == {o} + Objects(loaded)
    requires forall u :: u in loaded ==> InStep(u in ReferredIn(Rs[o]), rows[u], Rs[u], o, rows[o].id)
    requires InStep(o in ReferredIn(Rs[o]), rows[o], Rs[o], o, rows[o].id)
    requires forall u :: u in ReferredIn(Rs[o]) ==> u in loaded
    ensures Linked(o, {o} + Objects(loaded), rows, Rs)
  {
  }

  /**
   Loading the users that o refers, when it lists nobody yet, brings everything into agreement exactly if o is not its
   own referrer: the row of an object that is would be loaded again, as another object with the same id.
   */
  lemma LoadedIsConsistent(o: User, p: User?, rows: map<User, Row>, Rs: map<User, Option<Related>>, t: Table,
                           loaded: seq<User>, found: seq<Row>)
    requires Keyed(t) && |found| == |loaded| && o !in loaded
    requires forall i, j :: 0 <= i < j < |loaded| ==> loaded[i] != loaded[j]
    requires rows.Keys == Rs.Keys == {o} + Objects(loaded) && Agrees(rows[o], t) && p != o
    requires Answers(t, (r: Row) => r.referringUserId.Some? && r.referringUserId.value in [rows[o].id], found)
    requires forall k :: 0 <= k < |loaded| ==>
               && rows[loaded[k]] == found[k]
               && Rs[loaded[k]] == Loaders.Owned(Loaders.Owner([o], [rows[o].id], found[k].referringUserId))
    requires Rs[o] == Some(Related(p, Loaders.OwnedIn(loaded, found, |loaded|, [o], [rows[o].id], o)))
    ensures Consistent(o, {o} + Objects(loaded), rows, Rs, t) <==> rows[o].referringUserId != Some(rows[o].id)
  {
    ListsLoaded(o, rows[o].id, loaded, found);
    if rows[o].referringUserId == Some(rows[o].id) {
      assert !InStep(o in ReferredIn(Rs[o]), rows[o], Rs[o], o, rows[o].id);
    } else {
      LoadedRows(o, rows, t, loaded, found);
      forall u | u in loaded
        ensures InStep(u in ReferredIn(Rs[o]), rows[u], Rs[u], o, rows[o].id)
      {
        var k :| 0 <= k < |loaded| && loaded[k] == u;
        LoadedInStep(o, rows[o].id, loaded, found, k, ReferredIn(Rs[o]));
      }
      LinkedWhen(o, loaded, rows, Rs);
    }
  }
}

/** The referral operations on the heap: agreement between objects, pointers and table before and after each. */
module Agreement {
  import opened Consistency
  import opened Database
  import opened Relations
  import opened UserObjects
  import opened Users
  import opened Wrappers

  ghost function RowMap(all: set<User>): (rows: map<User, Row>)
    reads all
  {
    map u | u in all :: u.row
  }

  ghost function RelationMap(all: set<User>): (Rs: map<User, Option<Related>>)
    reads all
  {
    map u | u in all :: u.R
  }

  /** As they are now, the objects are in agreement with each other and with the table about those that o refers. */
  ghost predicate InAgreement(db: DB, o: User, all: set<User>)
    reads db, all
  {
    Consistent(o, all, RowMap(all), RelationMap(all), db.table)
  }

  lemma SameMaps(rows: map<User, Row>, Rs: map<User, Option<Related>>, rows': map<User, Row>,
                 Rs': map<User, Option<Related>>)
    requires rows.Keys == rows'.Keys && Rs.Keys == Rs'.Keys
    requires forall u :: u in rows ==> rows[u] == rows'[u]
    requires forall u :: u in Rs ==> Rs[u] == Rs'[u]
    ensures rows == rows' && Rs == Rs'
  {
  }

  /** Adding keeps agreement. */
  method Add(db: DB, up: bool, o: User, insert: bool, related: seq<User>, now: Time, ghost all: set<User>)
    returns (ok: bool)
    requires db.Valid() && InAgreement(db, o, all) && Objects(related) <= all
    modifies db, all
    ensures db.Valid()
    ensures ok ==> InAgreement(db, o, all)
  {
    ghost var rows, Rs, t := RowMap(all), RelationMap(all), db.table;
    ghost var stored;
    assert RowsIn(related, rows) == RowsOf(related);
    ok, stored := AddReferringUserUsers(db, up, o, insert, related, now, all);
    if ok {
      SameMaps(RowMap(all), RelationMap(all), AddedRows(insert, rows, related, rows[o].id, now),
               AddedRs(Rs, o, related));
      AddKeepsConsistent(insert, o, all, rows, Rs, t, related, now);
    }
  }

  /** Replacing keeps agreement, and o lists just the related objects. */
  method Set(db: DB, up: bool, o: User, insert: bool, related: seq<User>, now: Time, ghost all: set<User>)
    returns (ok: bool)
    requires db.Valid() && InAgreement(db, o, all) && Objects(related) <= all
    modifies db, all
    ensures db.Valid()
    ensures ok ==> InAgreement(db, o, all) && o.Referred() == related
  {
    ghost var rows, Rs, t := RowMap(all), RelationMap(all), db.table;
    ghost var listed := Objects(ReferredIn(Rs[o]));
    ghost var stored;
    assert RowsIn(related, rows) == RowsOf(related);
    ok, stored := SetReferringUserUsers(db, up, o, insert, related, now, all);
    if ok {
      SameMaps(RowMap(all), RelationMap(all), ReplacedRows(insert, rows, listed, related, rows[o].id, now),
               ReplacedRs(Rs, o, listed, related));
      SetKeepsConsistent(insert, o, all, rows, Rs, t, related, now);
      SetListsRelated(o, Rs, related);
    }
  }

  /** Removing keeps agreement exactly if no removed object was listed more often than it is given. */
  method Remove(db: DB, up: bool, o: User, related: seq<User>, ghost all: set<User>) returns (ok: bool)
    requires db.Valid() && InAgreement(db, o, all) && Objects(related) <= all
    modifies db, all
    ensures db.Valid()
    ensures up ==> ok
    ensures ok ==> (InAgreement(db, o, all) <==>
                    forall u :: u in related ==> Times(old(o.Referred()), u) <= Times(related, u))
  {
    ghost var rows, Rs, t := RowMap(all), RelationMap(all), db.table;
    assert RowsIn(related, rows) == RowsOf(related);
    ok := RemoveReferringUserUsers(db, up, o, related, all);
    if ok {
      SameMaps(RowMap(all), RelationMap(all), ForgottenRows(rows, Objects(related)), ShrunkRs(Rs, o, related));
      RemoveKeepsConsistent(o, all, rows, Rs, t, related);
    }
  }

  /** Setting a referrer changes the maps for the two objects only. */
  lemma ReferredMaps(insert: bool, o: User, referrer: User, rows: map<User, Row>, Rs: map<User, Option<Related>>,
                     rows': map<User, Row>, Rs': map<User, Option<Related>>, now: Time)
    requires o in rows && referrer in rows && rows.Keys == Rs.Keys == rows'.Keys == Rs'.Keys
    requires forall u :: u in rows && u != o && u != referrer ==> rows'[u] == rows[u] && Rs'[u] == Rs[u]
    requires o != referrer ==> rows'[referrer] == Created(insert, rows[referrer], now)
    requires var row := if o == referrer then Created(insert, rows[o], now) else rows[o];
             rows'[o] == row.(referringUserId := Some(rows[referrer].id))
    requires Rs'[o] == Added(o, Rs[o], referrer, {o}, [o])
    requires Rs'[referrer] == Added(referrer, Rs[referrer], referrer, {o}, [o])
    ensures rows' == ReferredRows(insert, rows, o, referrer, now)
    ensures Rs' == AddedRs(Rs, referrer, [o])
  {
    assert Objects([o]) == {o};
  }

  /** Setting a referrer keeps what the referrer lists in agreement. */
  method SetReferrer(db: DB, up: bool, o: User, insert: bool, referrer: User, now: Time, ghost all: set<User>)
    returns (ok: bool)
    requires db.Valid() && InAgreement(db, referrer, all) && o in all
    modifies db, o, referrer
    ensures db.Valid()
    ensures ok ==> InAgreement(db, referrer, all)
  {
    ghost var rows, Rs, t := RowMap(all), RelationMap(all), db.table;
    ok := SetReferringUser(db, up, o, insert, referrer, now);
    if ok {
      SetReferrerKeepsConsistent(insert, o, referrer, all, rows, Rs, t, now);
      ReferredMaps(insert, o, referrer, rows, Rs, RowMap(all), RelationMap(all), now);
    }
  }
}

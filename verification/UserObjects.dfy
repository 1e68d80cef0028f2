/** User objects and the pointers between them. */
module UserObjects {
  import opened Database
  import opened Users
  import opened Wrappers

  /** The related objects of a user (userR). */
  datatype Related = Related(ReferringUser: User?, ReferringUserUsers: seq<User>)

  ghost function ReferrerIn(r: Option<Related>): User? {
    if r.None? then null else r.value.ReferringUser
  }

  ghost function ReferredIn(r: Option<Related>): seq<User> {
    if r.None? then [] else r.value.ReferringUserUsers
  }

  class User {
    var row: Row
    var R: Option<Related>

    constructor (row: Row)
      ensures this.row == row && R == None
    {
      this.row := row;
      R := None;
    }

    ghost function Referrer(): User?
      reads this
    {
      ReferrerIn(R)
    }

    ghost function Referred(): seq<User>
      reads this
    {
      ReferredIn(R)
    }

    /** Allocates the relation struct if it is nil. */
    method EnsureR()
      modifies `R
      ensures R.Some? && Referrer() == old(Referrer()) && Referred() == old(Referred())
    {
      if R.None? {
        R := Some(Related(null, []));
      }
    }
  }

  ghost function Objects(users: seq<User>): set<User> {
    set u | u in users
  }

  ghost function RowsOf(users: seq<User>): seq<Row>
    reads Objects(users)
  {
    seq(|users|, i requires 0 <= i < |users| reads Objects(users) => users[i].row)
  }

  /** Of the first n objects, those whose row names the id, in their order. */
  ghost function NamingIn(users: seq<User>, rows: seq<Row>, n: nat, id: string): seq<User>
    requires n <= |users| == |rows|
  {
    if n == 0 then []
    else if rows[n - 1].referringUserId == Some(id) then NamingIn(users, rows, n - 1, id) + [users[n - 1]]
    else NamingIn(users, rows, n - 1, id)
  }

  lemma {:induction false} NamingMembers(users: seq<User>, rows: seq<Row>, n: nat, id: string)
    requires n <= |users| == |rows|
    ensures forall u :: u in NamingIn(users, rows, n, id) <==>
              exists i :: 0 <= i < n && users[i] == u && rows[i].referringUserId == Some(id)
  {
    if n != 0 {
      NamingMembers(users, rows, n - 1, id);
    }
  }

  /** Queries answer with new objects. */
  method Bind(rows: seq<Row>) returns (users: seq<User>)
    ensures RowsOf(users) == rows
    ensures forall i :: 0 <= i < |users| ==> fresh(users[i]) && users[i].R == None
    ensures forall i, j :: 0 <= i < j < |users| ==> users[i] != users[j]
  {
    users := [];
    for k := 0 to |rows|
      invariant |users| == k
      invariant forall i :: 0 <= i < k ==> users[i].row == rows[i] && fresh(users[i]) && users[i].R == None
      invariant forall i, j :: 0 <= i < j < k ==> users[i] != users[j]
    {
      var u := new User(rows[k]);
      users := users + [u];
    }
  }

  ghost function IdsOf(rows: seq<Row>): seq<string> {
    seq(|rows|, k requires 0 <= k < |rows| => rows[k].id)
  }

  ghost predicate DistinctIds(rows: seq<Row>) {
    forall i, j :: 0 <= i < j < |rows| ==> rows[i].id != rows[j].id
  }

  /** Runs a query and binds its answer to new objects. */
  method Fetch(db: DB, up: bool, matches: Row -> bool) returns (ok: bool, loaded: seq<User>, ghost rows: seq<Row>)
    requires db.Valid()
    ensures ok <==> up
    ensures ok ==> Answers(db.table, matches, rows)
    ensures !ok ==> rows == []
    ensures |loaded| == |rows| && forall k :: 0 <= k < |rows| ==> loaded[k].row == rows[k] && loaded[k].R == None
    ensures fresh(Objects(loaded)) && forall i, j :: 0 <= i < j < |loaded| ==> loaded[i] != loaded[j]
  {
    ok, loaded, rows := All(db, up, matches, (row: Row) => 0);
  }

  /** The same for a query with an order, highest keys first. */
  method All(db: DB, up: bool, matches: Row -> bool, key: Row -> int)
    returns (ok: bool, loaded: seq<User>, ghost rows: seq<Row>)
    requires db.Valid()
    ensures ok <==> up
    ensures ok ==> Answers(db.table, matches, rows) && Descending(rows, key)
    ensures !ok ==> rows == []
    ensures |loaded| == |rows| && forall k :: 0 <= k < |rows| ==> loaded[k].row == rows[k] && loaded[k].R == None
    ensures fresh(Objects(loaded)) && forall i, j :: 0 <= i < j < |loaded| ==> loaded[i] != loaded[j]
  {
    var answer := db.SelectOrdered(up, matches, key);
    if answer.Err? {
      return false, [], [];
    }
    ok, rows := true, answer.value;
    loaded := Bind(answer.value);
    assert forall k :: 0 <= k < |loaded| ==> loaded[k].row == RowsOf(loaded)[k];
  }

  /** The row is one of those with the highest key among the matching ones. */
  ghost predicate Top(t: Table, matches: Row -> bool, key: Row -> int, row: Row) {
    && row.id in t && t[row.id] == row && matches(row)
    && forall id :: id in t && matches(t[id]) ==> key(t[id]) <= key(row)
  }

  /** The first row of an ordered query, as a new object, or null if there is none. */
  method One(db: DB, up: bool, matches: Row -> bool, key: Row -> int) returns (ok: bool, user: User?)
    requires db.Valid()
    ensures ok <==> up
    ensures user != null ==> ok && fresh(user) && user.R == None && Top(db.table, matches, key, user.row)
    ensures ok && user == null ==> forall id :: id in db.table ==> !matches(db.table[id])
  {
    var answer := db.SelectOrdered(up, matches, key);
    if answer.Err? {
      return false, null;
    }
    ok, user := true, null;
    var rows := answer.value;
    if rows != [] {
      forall id | id in db.table && matches(db.table[id])
        ensures key(db.table[id]) <= key(rows[0])
      {
        var i :| 0 <= i < |rows| && rows[i] == db.table[id];
      }
      user := new User(rows[0]);
    }
  }

  /** The first n of the objects, as a set. */
  ghost function FirstOf(users: seq<User>, n: nat): set<User>
    requires n <= |users|
  {
    if n == 0 then {} else FirstOf(users, n - 1) + {users[n - 1]}
  }

  lemma {:induction false} FirstOfAll(users: seq<User>, n: nat)
    requires n <= |users|
    ensures forall i :: 0 <= i < n ==> users[i] in FirstOf(users, n)
  {
    if n != 0 {
      FirstOfAll(users, n - 1);
    }
  }

  lemma {:induction false} FirstOfMembers(users: seq<User>, n: nat)
    requires n <= |users|
    ensures FirstOf(users, n) == Objects(users[..n])
  {
    if n != 0 {
      FirstOfMembers(users, n - 1);
      assert users[..n] == users[..n - 1] + [users[n - 1]];
    }
  }

  lemma FirstOfIsObjects(users: seq<User>)
    ensures FirstOf(users, |users|) == Objects(users)
  {
    FirstOfMembers(users, |users|);
    assert users[..|users|] == users;
  }
}

/** The eager loaders, which set the pointers between user objects from the table. */
module Loaders {
  import opened Database
  import opened UserObjects
  import opened Users
  import opened Wrappers

  /** The loaders' first loop: every object gets a relation struct. */
  method EnsureRs(slice: seq<User>)
    modifies Objects(slice)`R
    ensures forall u :: u in slice ==>
              u.R.Some? && u.Referrer() == old(u.Referrer()) && u.Referred() == old(u.Referred())
  {
    for i := 0 to |slice|
      invariant forall j :: 0 <= j < i ==> slice[j].R.Some?
      invariant forall u :: u in slice ==> u.Referrer() == old(u.Referrer()) && u.Referred() == old(u.Referred())
    {
      slice[i].EnsureR();
    }
  }

  /** The inner loop of the loaders: the first candidate with the wanted id. queries.Equal is false on NULL. */
  method FindById(candidates: seq<User>, referrer: Option<string>) returns (k: nat)
    ensures k <= |candidates|
    ensures k < |candidates| ==> referrer == Some(candidates[k].row.id)
    ensures forall i :: 0 <= i < k ==> referrer != Some(candidates[i].row.id)
  {
    k := 0;
    while k < |candidates|
      invariant k <= |candidates|
      invariant forall i :: 0 <= i < k ==> referrer != Some(candidates[i].row.id)
    {
      if referrer == Some(candidates[k].row.id) {
        return;
      }
      k := k + 1;
    }
  }

  /** The objects under their ids. */
  ghost predicate Indexes(byId: map<string, User>, users: seq<User>, ids: seq<string>)
  {
    && |ids| == |users|
    && (forall k :: 0 <= k < |ids| ==> ids[k] in byId && byId[ids[k]] == users[k])
    && (forall id :: id in byId ==> id in ids)
  }

  ghost function Named(byId: map<string, User>, referrer: Option<string>, otherwise: User?): User? {
    if referrer.Some? && referrer.value in byId then byId[referrer.value] else otherwise
  }

  /** The relation struct of an object once it points at the loaded row that its referrer names. */
  ghost function Linked(byId: map<string, User>, r: Related, referrer: Option<string>): Related {
    r.(ReferringUser := Named(byId, referrer, r.ReferringUser))
  }

  /** The relation struct of a loaded row that lists the given objects: none is allocated for nobody. */
  ghost function Listing(users: seq<User>): Option<Related> {
    if users == [] then None else Some(Related(null, users))
  }

  /** For each id, those of the first n objects whose row names it. */
  ghost function ListsOf(users: seq<User>, rows: seq<Row>, n: nat, ids: seq<string>): seq<seq<User>>
    requires n <= |users| == |rows|
  {
    seq(|ids|, k requires 0 <= k < |ids| => NamingIn(users, rows, n, ids[k]))
  }

  /** One round of the loader's outer loop: the object is linked to the row that its referrer names, if there is one. */
  method LinkOne(local: User, results: seq<User>, ghost ids: seq<string>, ghost byId: map<string, User>,
                 ghost found: set<User>, ghost lists: seq<seq<User>>)
    requires Indexes(byId, results, ids) && local !in found && local.R.Some? && |lists| == |results|
    requires forall k :: 0 <= k < |results| ==>
               results[k] in found && results[k].row.id == ids[k] && results[k].R == Listing(lists[k])
    modifies local`R, found`R
    ensures local.R == Some(Linked(byId, old(local.R.value), local.row.referringUserId))
    ensures forall k :: 0 <= k < |results| ==>
              results[k].R ==
              Listing(if local.row.referringUserId == Some(ids[k]) then lists[k] + [local] else lists[k])
  {
    var k := FindById(results, local.row.referringUserId);
    if k < |results| {
      var foreign := results[k];
      assert Named(byId, local.row.referringUserId, null) == foreign;
      local.R := Some(local.R.value.(ReferringUser := foreign));
      if foreign.R.None? {
        foreign.R := Some(Related(null, []));
      }
      foreign.R := Some(foreign.R.value.(ReferringUserUsers := foreign.R.value.ReferringUserUsers + [local]));
    }
  }

  /** The loader's nested loop, over the objects and the rows loaded for them. */
  method Link(slice: seq<User>, ghost rows: seq<Row>, results: seq<User>, ghost ids: seq<string>,
              ghost byId: map<string, User>,
              ghost locals: set<User>, ghost found: set<User>, ghost was: map<User, Related>, ghost goal: map<User,
              Related>)
    requires |rows| == |slice| && forall i :: 0 <= i < |slice| ==> slice[i] in locals && slice[i].row == rows[i]
    requires Indexes(byId, results, ids) && locals !! found && was.Keys == goal.Keys == locals
    requires forall u :: u in locals ==> u.R == Some(was[u])
    requires forall i :: 0 <= i < |slice| ==> goal[slice[i]] == Linked(byId, was[slice[i]], rows[i].referringUserId)
    requires forall k :: 0 <= k < |results| ==>
               results[k] in found && results[k].row.id == ids[k] && results[k].R == None
    modifies locals`R, found`R
    ensures forall i :: 0 <= i < |slice| ==> slice[i].R == Some(goal[slice[i]])
    ensures forall k :: 0 <= k < |results| ==> results[k].R == Listing(NamingIn(slice, rows, |slice|, ids[k]))
  {
    ghost var done: set<User>, lists := {}, ListsOf(slice, rows, 0, ids);
    for i := 0 to |slice|
      invariant forall u :: u in locals ==> u.R == Some(if u in done then goal[u] else was[u])
      invariant done == FirstOf(slice, i) && lists == ListsOf(slice, rows, i, ids)
      invariant forall k :: 0 <= k < |results| ==> results[k].R == Listing(lists[k])
    {
      LinkOne(slice[i], results, ids, byId, found, lists);
      done, lists := done + {slice[i]}, ListsOf(slice, rows, i + 1, ids);
    }
    FirstOfAll(slice, |slice|);
  }

  /** Some(a) is named by one of the rows. */
  ghost predicate IsNamed(rows: seq<Row>, a: string) {
    exists i :: 0 <= i < |rows| && rows[i].referringUserId == Some(a)
  }

  /** The loaders' second loop: the referrers the slice names. */
  method ReferrersNamed(slice: seq<User>, ghost rows: seq<Row>) returns (args: set<string>)
    requires |rows| == |slice| && forall i :: 0 <= i < |slice| ==> slice[i].row == rows[i]
    ensures forall a :: a in args <==> IsNamed(rows, a)
  {
    args := {};
    for i := 0 to |slice|
      invariant forall a :: a in args <==> IsNamed(rows[..i], a)
    {
      var obj := slice[i];
      assert rows[..i + 1] == rows[..i] + [obj.row];
      if obj.row.referringUserId.Some? {
        assert (rows[..i] + [obj.row])[i] == obj.row;
        args := args + {obj.row.referringUserId.value};
      }
      forall a | IsNamed(rows[..i], a)
        ensures IsNamed(rows[..i + 1], a)
      {
        var j :| 0 <= j < i && rows[..i][j].referringUserId == Some(a);
        assert rows[..i + 1][j] == rows[..i][j];
      }
    }
    assert rows[..|slice|] == rows;
  }

  /** The loaded objects under their ids. */
  ghost function IndexById(loaded: seq<User>, found: seq<Row>): (byId: map<string, User>)
    requires |found| == |loaded|
    requires DistinctIds(found)
    ensures forall k :: 0 <= k < |found| ==> found[k].id in byId && byId[found[k].id] == loaded[k]
    ensures forall id :: id in byId ==> exists k :: 0 <= k < |found| && found[k].id == id
  {
    map k | 0 <= k < |found| :: found[k].id := loaded[k]
  }

  lemma IndexedById(loaded: seq<User>, found: seq<Row>)
    requires |found| == |loaded| && DistinctIds(found)
    ensures Indexes(IndexById(loaded, found), loaded, IdsOf(found))
  {
  }

  /** The loader's nested loop, seen from outside: it joins the objects with the loaded rows, both ways. */
  method Join(slice: seq<User>, ghost rows: seq<Row>, loaded: seq<User>, ghost found: seq<Row>,
              ghost byId: map<string, User>,
              ghost was: map<User, Related>)
    requires |rows| == |slice| && forall i :: 0 <= i < |slice| ==> slice[i].row == rows[i]
    requires was.Keys == Objects(slice) && forall u :: u in was ==> u.R == Some(was[u])
    requires |found| == |loaded| && forall k :: 0 <= k < |found| ==> loaded[k].row == found[k] && loaded[k].R == None
    requires DistinctIds(found) && Objects(slice) !! Objects(loaded) && byId == IndexById(loaded, found)
    modifies Objects(slice)`R, Objects(loaded)`R
    ensures forall i :: 0 <= i < |slice| ==> slice[i].R == Some(Linked(byId, was[slice[i]], rows[i].referringUserId))
    ensures forall k :: 0 <= k < |loaded| ==> loaded[k].R == Listing(NamingIn(slice, rows, |slice|, found[k].id))
  {
    ghost var goal: map<User, Related> := map u: User | u in was :: Linked(byId, was[u], u.row.referringUserId);
    IndexedById(loaded, found);
    Link(slice, rows, loaded, IdsOf(found), byId, Objects(slice), Objects(loaded), was, goal);
  }

  /** Of the referrers that are named, the loaded ones are those that the table has. */
  ghost predicate LoadedAsInTable(t: Table, rows: seq<Row>, byId: map<string, User>) {
    forall i :: 0 <= i < |rows| && rows[i].referringUserId.Some? ==>
      (rows[i].referringUserId.value in byId <==> rows[i].referringUserId.value in t)
  }

  /** What the query for the named referrers finds is what the table holds under those ids. */
  lemma FoundIsTheTable(t: Table, rows: seq<Row>, args: set<string>, loaded: seq<User>, found: seq<Row>)
    requires Keyed(t) && Answers(t, (r: Row) => r.id in args, found) && |loaded| == |found|
    requires forall a :: a in args <==> IsNamed(rows, a)
    ensures LoadedAsInTable(t, rows, IndexById(loaded, found))
    ensures forall k :: 0 <= k < |found| ==> IsNamed(rows, found[k].id)
  {
    forall i | 0 <= i < |rows| && rows[i].referringUserId.Some? && rows[i].referringUserId.value in t
      ensures rows[i].referringUserId.value in IndexById(loaded, found)
    {
      assert IsNamed(rows, rows[i].referringUserId.value);
      assert t[rows[i].referringUserId.value] in found;
    }
  }

  /** The loader's query, which is not run for no ids. */
  method FetchReferrers(db: DB, up: bool, slice: seq<User>, ghost rows: seq<Row>)
    returns (ok: bool, loaded: seq<User>, ghost found: seq<Row>)
    requires db.Valid() && |rows| == |slice| && forall i :: 0 <= i < |slice| ==> slice[i].row == rows[i]
    ensures |found| == |loaded| && DistinctIds(found) && fresh(Objects(loaded))
    ensures forall i, j :: 0 <= i < j < |loaded| ==> loaded[i] != loaded[j]
    ensures forall k :: 0 <= k < |found| ==> loaded[k].row == found[k] && loaded[k].R == None
    ensures forall k :: 0 <= k < |found| ==> found[k].id in db.table && found[k] == db.table[found[k].id]
    ensures forall k :: 0 <= k < |found| ==> IsNamed(rows, found[k].id)
    ensures !ok ==> loaded == []
    ensures ok <==> up || forall i :: 0 <= i < |rows| ==> rows[i].referringUserId.None?
    ensures ok ==> LoadedAsInTable(db.table, rows, IndexById(loaded, found))
  {
    ok, loaded, found := true, [], [];
    var args := ReferrersNamed(slice, rows);
    if |args| == 0 {
      assert forall i :: 0 <= i < |rows| && rows[i].referringUserId.Some? ==>
                           IsNamed(rows, rows[i].referringUserId.value);
      return;
    }
    var some :| some in args;
    assert IsNamed(rows, some);
    ok, loaded, found := Fetch(db, up, (r: Row) => r.id in args);
    if ok {
      FoundIsTheTable(db.table, rows, args, loaded, found);
    }
  }

  /** The loader, told in terms of the rows and pointers that the objects have at first. */
  method LoadReferrersOf(db: DB, up: bool, slice: seq<User>, ghost rows: seq<Row>, ghost was: map<User, Related>)
    returns (ok: bool, loaded: seq<User>, ghost found: seq<Row>)
    requires db.Valid() && |rows| == |slice| && forall i :: 0 <= i < |slice| ==> slice[i].row == rows[i]
    requires was.Keys == Objects(slice) && forall u :: u in was ==> was[u] == Related(u.Referrer(), u.Referred())
    modifies Objects(slice)`R
    ensures |found| == |loaded| && DistinctIds(found) && fresh(Objects(loaded))
    ensures forall i, j :: 0 <= i < j < |loaded| ==> loaded[i] != loaded[j]
    ensures forall k :: 0 <= k < |found| ==> loaded[k].row == found[k]
    ensures forall k :: 0 <= k < |found| ==> found[k].id in db.table && found[k] == db.table[found[k].id]
    ensures forall k :: 0 <= k < |found| ==> loaded[k].R == Listing(NamingIn(slice, rows, |slice|, found[k].id))
    ensures forall k :: 0 <= k < |found| ==> IsNamed(rows, found[k].id)
    ensures !ok ==> loaded == []
    ensures ok <==> up || forall i :: 0 <= i < |rows| ==> rows[i].referringUserId.None?
    ensures forall i :: 0 <= i < |slice| ==>
              slice[i].R == Some(Linked(IndexById(loaded, found), was[slice[i]], rows[i].referringUserId))
    ensures ok ==> LoadedAsInTable(db.table, rows, IndexById(loaded, found))
  {
    EnsureRs(slice);
    ok, loaded, found := FetchReferrers(db, up, slice, rows);
    Join(slice, rows, loaded, found, IndexById(loaded, found), was);
  }

  /** No loaded row has the id that is named, if any is. */
  ghost predicate Unloaded(referrer: Option<string>, found: seq<Row>) {
    forall k :: 0 <= k < |found| ==> referrer != Some(found[k].id)
  }

  /**
   The eager loader of referrers, for a slice of objects. Each object ends up pointing at the one row that its
   referring_user_id names, and each loaded referrer lists the objects that name it, in the order of the slice.
   */
  method LoadReferringUser(db: DB, up: bool, slice: seq<User>)
    returns (ok: bool, loaded: seq<User>, ghost found: seq<Row>)
    requires db.Valid()
    modifies Objects(slice)`R
    ensures |found| == |loaded| && DistinctIds(found) && fresh(Objects(loaded))
    ensures forall i, j :: 0 <= i < j < |loaded| ==> loaded[i] != loaded[j]
    ensures forall k :: 0 <= k < |found| ==> loaded[k].row == found[k]
    ensures forall k :: 0 <= k < |found| ==> found[k].id in db.table && found[k] == db.table[found[k].id]
    ensures forall k :: 0 <= k < |found| ==>
              loaded[k].R == Listing(NamingIn(slice, old(RowsOf(slice)), |slice|, found[k].id))
    ensures forall k :: 0 <= k < |found| ==> IsNamed(old(RowsOf(slice)), found[k].id)
    ensures !ok ==> loaded == []
    ensures ok <==> up || forall i :: 0 <= i < |slice| ==> slice[i].row.referringUserId.None?
    ensures forall i :: 0 <= i < |slice| ==>
              slice[i].R == Some(Linked(IndexById(loaded, found),
                                        old(Related(slice[i].Referrer(), slice[i].Referred())),
                                        slice[i].row.referringUserId))
    ensures forall i :: 0 <= i < |slice| ==> slice[i].Referred() == old(slice[i].Referred())
    ensures forall i :: 0 <= i < |slice| && Unloaded(slice[i].row.referringUserId, found) ==>
              slice[i].Referrer() == old(slice[i].Referrer())
    ensures ok ==> LoadedAsInTable(db.table, old(RowsOf(slice)), IndexById(loaded, found))
  {
    ghost var was: map<User, Related> := map u | u in slice :: Related(u.Referrer(), u.Referred());
    ok, loaded, found := LoadReferrersOf(db, up, slice, RowsOf(slice), was);
  }

  /** After the loader, an object is in the list of a loaded referrer exactly if it points at it. */
  lemma DirectionsAgree(users: seq<User>, rows: seq<Row>, before: User?, loaded: seq<User>, found: seq<Row>, i: nat,
                        k: nat)
    requires i < |users| == |rows| && k < |loaded| == |found|
    requires forall a, b :: 0 <= a < |users| && 0 <= b < |users| && users[a] == users[b] ==> rows[a] == rows[b]
    requires DistinctIds(found) && forall a, b :: 0 <= a < b < |loaded| ==> loaded[a] != loaded[b]
    requires before != loaded[k]
    ensures users[i] in NamingIn(users, rows, |users|, found[k].id) <==>
            Named(IndexById(loaded, found), rows[i].referringUserId, before) == loaded[k]
  {
    NamingMembers(users, rows, |users|, found[k].id);
    PointsExactly(loaded, found, rows[i].referringUserId, before, k);
  }

  /** A referrer leads to the loaded object with its id and to no other. */
  lemma PointsExactly(loaded: seq<User>, found: seq<Row>, referrer: Option<string>, before: User?, k: nat)
    requires k < |loaded| == |found| && before != loaded[k]
    requires DistinctIds(found) && forall a, b :: 0 <= a < b < |loaded| ==> loaded[a] != loaded[b]
    ensures Named(IndexById(loaded, found), referrer, before) == loaded[k] <==> referrer == Some(found[k].id)
  {
    var byId := IndexById(loaded, found);
    if referrer.Some? && referrer.value in byId {
      var j :| 0 <= j < |found| && found[j].id == referrer.value;
      assert byId[referrer.value] == loaded[j];
    }
  }

  /** The singular loader: the first row that the query answers with is the referrer, and the object joins its list. */
  method LoadReferringUserOfOne(db: DB, up: bool, local: User) returns (ok: bool)
    requires db.Valid()
    modifies local`R
    ensures ok <==> up || local.row.referringUserId.None?
    ensures local.R.Some? && local.Referred() == old(local.Referred())
    ensures var named := local.row.referringUserId;
            if ok && named.Some? && named.value in db.table then
              local.Referrer() != null && fresh(local.Referrer()) && local.Referrer().row == db.table[named.value]
              && local.Referrer().R == Some(Related(null, [local]))
            else local.Referrer() == old(local.Referrer())
  {
    local.EnsureR();
    ghost var named := local.row.referringUserId;
    var args: set<string> := {};
    if local.row.referringUserId.Some? {
      args := args + {local.row.referringUserId.value};
    }
    if |args| == 0 {
      assert forall a :: named == Some(a) ==> a in args;
      return true;
    }
    var loaded;
    ghost var found;
    ok, loaded, found := Fetch(db, up, (r: Row) => r.id in args);
    assert ok ==> forall id :: id in db.table && named == Some(id) ==> db.table[id] in found;
    if !ok || |loaded| == 0 {
      return;
    }
    var foreign := loaded[0];
    assert foreign in Objects(loaded) && foreign.row == found[0] && foreign.R == None;
    local.R := Some(local.R.value.(ReferringUser := foreign));
    if foreign.R.None? {
      foreign.R := Some(Related(null, []));
    }
    foreign.R := Some(foreign.R.value.(ReferringUserUsers := foreign.R.value.ReferringUserUsers + [local]));
    assert [] + [local] == [local];
  }

  /** The first of the objects that has the named id, if there is one. */
  ghost function Owner(users: seq<User>, ids: seq<string>, referrer: Option<string>): (u: User?)
    requires |ids| == |users|
    ensures u == null <==> forall i :: 0 <= i < |ids| ==> Some(ids[i]) != referrer
  {
    if ids == [] then null
    else if Some(ids[0]) == referrer then users[0]
    else Owner(users[1..], ids[1..], referrer)
  }

  lemma {:induction false} OwnerIs(users: seq<User>, ids: seq<string>, referrer: Option<string>, k: nat)
    requires k < |ids| == |users| && Some(ids[k]) == referrer
    requires forall i :: 0 <= i < k ==> Some(ids[i]) != referrer
    ensures Owner(users, ids, referrer) == users[k]
    decreases k
  {
    if k != 0 {
      OwnerIs(users[1..], ids[1..], referrer, k - 1);
    }
  }

  /** Of the first n loaded rows, those that the given object owns, in their order. */
  ghost function OwnedIn(loaded: seq<User>, found: seq<Row>, n: nat, users: seq<User>, ids: seq<string>,
                         u: User): seq<User>
    requires n <= |loaded| == |found| && |ids| == |users|
  {
    if n == 0 then []
    else if Owner(users, ids, found[n - 1].referringUserId) == u then
      OwnedIn(loaded, found, n - 1, users, ids, u) + [loaded[n - 1]]
    else OwnedIn(loaded, found, n - 1, users, ids, u)
  }

  /** When the objects have distinct ids, an object owns exactly the rows that name it. */
  lemma {:induction false} OwnedIsNaming(loaded: seq<User>, found: seq<Row>, n: nat, users: seq<User>,
                                         ids: seq<string>, i: nat)
    requires n <= |loaded| == |found| && i < |ids| == |users|
    requires forall a, b :: 0 <= a < b < |ids| ==> ids[a] != ids[b] && users[a] != users[b]
    ensures OwnedIn(loaded, found, n, users, ids, users[i]) == NamingIn(loaded, found, n, ids[i])
    decreases n
  {
    if n != 0 {
      OwnedIsNaming(loaded, found, n - 1, users, ids, i);
      var referrer := found[n - 1].referringUserId;
      if k: nat :| k < |ids| && Some(ids[k]) == referrer {
        OwnerIs(users, ids, referrer, k);
      }
    }
  }

  /** A loaded row is in the list of its owner, and in no other. */
  lemma {:induction false} OwnedMembers(loaded: seq<User>, found: seq<Row>, n: nat, users: seq<User>,
                                        ids: seq<string>, u: User, k: nat)
    requires k < n <= |loaded| == |found| && |ids| == |users|
    requires forall a, b :: 0 <= a < b < |loaded| ==> loaded[a] != loaded[b]
    ensures loaded[k] in OwnedIn(loaded, found, n, users, ids, u) <==> Owner(users, ids, found[k].referringUserId) == u
    decreases n
  {
    if k == n - 1 {
      OwnedBefore(loaded, found, k, users, ids, u);
    } else {
      OwnedMembers(loaded, found, n - 1, users, ids, u, k);
    }
  }

  lemma {:induction false} OwnedBefore(loaded: seq<User>, found: seq<Row>, n: nat, users: seq<User>,
                                       ids: seq<string>, u: User)
    requires n <= |loaded| == |found| && |ids| == |users|
    ensures forall x :: x in OwnedIn(loaded, found, n, users, ids, u) ==> x in loaded[..n]
  {
    if n != 0 {
      OwnedBefore(loaded, found, n - 1, users, ids, u);
      assert loaded[..n] == loaded[..n - 1] + [loaded[n - 1]];
    }
  }

  /** The relation struct of u after a loaded row joined the list of its owner. */
  ghost function Adopted(u: User, r: Option<Related>, foreign: User, owner: User?): Option<Related> {
    if owner == null then r
    else if u == foreign then Owned(owner)
    else if u == owner && r.Some? then Some(r.value.(ReferringUserUsers := r.value.ReferringUserUsers + [foreign]))
    else r
  }

  /** The relation struct of a loaded row that refers to its owner. */
  ghost function Owned(owner: User?): Option<Related> {
    if owner == null then None else Some(Related(owner, []))
  }

  /** The relation struct of u after the first n loaded rows. */
  ghost function AdoptedBy(u: User, r: Option<Related>, loaded: seq<User>, found: seq<Row>, n: nat,
                           users: seq<User>, ids: seq<string>): Option<Related>
    requires n <= |loaded| == |found| && |ids| == |users|
  {
    if n == 0 then r else
      var before := AdoptedBy(u, r, loaded, found, n - 1, users, ids);
      Adopted(u, before, loaded[n - 1], Owner(users, ids, found[n - 1].referringUserId))
  }

  /** An object that was not loaded: its list grows by what it owns. */
  lemma {:induction false} LocalAfter(u: User, r: Related, loaded: seq<User>, found: seq<Row>, n: nat,
                                      users: seq<User>, ids: seq<string>)
    requires n <= |loaded| == |found| && |ids| == |users| && u !in loaded
    ensures AdoptedBy(u, Some(r), loaded, found, n, users, ids) ==
            Some(r.(ReferringUserUsers := r.ReferringUserUsers + OwnedIn(loaded, found, n, users, ids, u)))
    decreases n
  {
    if n != 0 {
      LocalAfter(u, r, loaded, found, n - 1, users, ids);
      var list, owned := r.ReferringUserUsers, OwnedIn(loaded, found, n - 1, users, ids, u);
      assert (list + owned) + [loaded[n - 1]] == list + (owned + [loaded[n - 1]]);
    } else {
      assert r.ReferringUserUsers + [] == r.ReferringUserUsers;
    }
  }

  lemma {:induction false} OwnerAmong(users: seq<User>, ids: seq<string>, referrer: Option<string>)
    requires |ids| == |users|
    ensures var owner := Owner(users, ids, referrer); owner == null || owner in users
  {
    if ids != [] {
      OwnerAmong(users[1..], ids[1..], referrer);
    }
  }

  /** A loaded object: it refers to its owner from its own turn on. */
  lemma {:induction false} LoadedAfter(k: nat, loaded: seq<User>, found: seq<Row>, n: nat, users: seq<User>,
                                       ids: seq<string>)
    requires k < |loaded| && n <= |loaded| == |found| && |ids| == |users| && loaded[k] !in users
    requires forall i, j :: 0 <= i < j < |loaded| ==> loaded[i] != loaded[j]
    ensures AdoptedBy(loaded[k], None, loaded, found, n, users, ids) ==
            if k < n then Owned(Owner(users, ids, found[k].referringUserId)) else None
    decreases n
  {
    if n != 0 {
      LoadedAfter(k, loaded, found, n - 1, users, ids);
      OwnerAmong(users, ids, found[n - 1].referringUserId);
    }
  }

  /** One round of the loader's outer loop: the row joins the list of the first object it names. */
  method AdoptOne(foreign: User, slice: seq<User>, ghost ids: seq<string>, ghost all: set<User>,
                  ghost before: map<User, Option<Related>>)
    requires |ids| == |slice| && forall i :: 0 <= i < |slice| ==> slice[i] in all && slice[i].row.id == ids[i]
    requires foreign in all && foreign !in slice && before.Keys == all
    requires forall u :: u in all ==> u.R == before[u]
    requires before[foreign] == None && forall u :: u in slice ==> before[u].Some?
    modifies all`R
    ensures forall u :: u in all ==>
              u.R == Adopted(u, before[u], foreign, Owner(slice, ids, foreign.row.referringUserId))
  {
    var k := FindById(slice, foreign.row.referringUserId);
    assert forall i :: 0 <= i < k ==> ids[i] == slice[i].row.id;
    if k < |slice| {
      OwnerIs(slice, ids, foreign.row.referringUserId, k);
      var local := slice[k];
      local.R := Some(local.R.value.(ReferringUserUsers := local.R.value.ReferringUserUsers + [foreign]));
      if foreign.R.None? {
        foreign.R := Some(Related(null, []));
      }
      foreign.R := Some(foreign.R.value.(ReferringUser := local));
    }
  }

  /** The relation structs of all objects after the first n loaded rows. */
  ghost function Adoption(was: map<User, Option<Related>>, loaded: seq<User>, found: seq<Row>, n: nat,
                          users: seq<User>, ids: seq<string>): map<User, Option<Related>>
    requires n <= |loaded| == |found| && |ids| == |users|
  {
    map u | u in was :: AdoptedBy(u, was[u], loaded, found, n, users, ids)
  }

  /** Before its turn a loaded object refers to nobody; the objects of the slice keep their relation structs. */
  lemma BeforeTurn(was: map<User, Option<Related>>, loaded: seq<User>, found: seq<Row>, n: nat, users: seq<User>,
                   ids: seq<string>)
    requires n < |loaded| == |found| && |ids| == |users| && loaded[n] in was && was[loaded[n]] == None
    requires forall i, j :: 0 <= i < j < |loaded| ==> loaded[i] != loaded[j]
    requires forall u :: u in users ==> u in was && was[u].Some? && u !in loaded
    ensures var now := Adoption(was, loaded, found, n, users, ids);
            now[loaded[n]] == None && forall u :: u in users ==> now[u].Some?
  {
    LoadedAfter(n, loaded, found, n, users, ids);
    forall u | u in users
      ensures AdoptedBy(u, was[u], loaded, found, n, users, ids).Some?
    {
      LocalAfter(u, was[u].value, loaded, found, n, users, ids);
    }
  }

  /** The loader's nested loop, over the loaded rows and the objects. */
  method Adopt(slice: seq<User>, ghost ids: seq<string>, loaded: seq<User>, ghost found: seq<Row>, ghost all: set<User>,
               ghost was: map<User, Option<Related>>)
    requires |ids| == |slice| && forall i :: 0 <= i < |slice| ==> slice[i] in all && slice[i].row.id == ids[i]
    requires |found| == |loaded| && forall k :: 0 <= k < |found| ==> loaded[k] in all && loaded[k].row == found[k]
    requires forall i, j :: 0 <= i < j < |loaded| ==> loaded[i] != loaded[j]
    requires was.Keys == all && forall u :: u in all ==> u.R == was[u]
    requires forall u :: u in loaded ==> was[u] == None
    requires forall u :: u in slice ==> was[u].Some? && u !in loaded
    modifies all`R
    ensures forall u :: u in all ==> u.R == AdoptedBy(u, was[u], loaded, found, |loaded|, slice, ids)
  {
    ghost var now := was;
    for n := 0 to |loaded|
      invariant now == Adoption(was, loaded, found, n, slice, ids)
      invariant forall u :: u in all ==> u.R == now[u]
    {
      BeforeTurn(was, loaded, found, n, slice, ids);
      AdoptOne(loaded[n], slice, ids, all, now);
      now := Adoption(was, loaded, found, n + 1, slice, ids);
    }
  }

  /** The ids the slice asks for. */
  method IdsNamed(slice: seq<User>, ghost ids: seq<string>) returns (args: set<string>)
    requires |ids| == |slice| && forall i :: 0 <= i < |slice| ==> slice[i].row.id == ids[i]
    ensures forall a :: a in args <==> a in ids
  {
    args := {};
    for i := 0 to |slice|
      invariant forall a :: a in args <==> a in ids[..i]
    {
      assert ids[..i + 1] == ids[..i] + [slice[i].row.id];
      args := args + {slice[i].row.id};
    }
    assert ids[..|slice|] == ids;
  }

  /** The loader's nested loop, seen from outside. */
  method Distribute(slice: seq<User>, ghost ids: seq<string>, loaded: seq<User>, ghost found: seq<Row>,
                    ghost was: map<User, Related>)
    requires |ids| == |slice| && forall i :: 0 <= i < |slice| ==> slice[i].row.id == ids[i]
    requires was.Keys == Objects(slice) && forall u :: u in was ==> u.R == Some(was[u])
    requires |found| == |loaded| && forall k :: 0 <= k < |found| ==> loaded[k].row == found[k] && loaded[k].R == None
    requires Objects(slice) !! Objects(loaded) && forall i, j :: 0 <= i < j < |loaded| ==> loaded[i] != loaded[j]
    modifies Objects(slice)`R, Objects(loaded)`R
    ensures forall u :: u in slice ==>
              u.R == Some(was[u].(
                ReferringUserUsers := was[u].ReferringUserUsers + OwnedIn(loaded, found, |loaded|, slice, ids, u)))
    ensures forall k :: 0 <= k < |loaded| ==> loaded[k].R == Owned(Owner(slice, ids, found[k].referringUserId))
  {
    ghost var all: set<User> := Objects(slice) + Objects(loaded);
    ghost var Rs: map<User, Option<Related>> := map u | u in all :: u.R;
    Adopt(slice, ids, loaded, found, all, Rs);
    forall u | u in slice {
      LocalAfter(u, was[u], loaded, found, |loaded|, slice, ids);
    }
    forall k | 0 <= k < |loaded| {
      LoadedAfter(k, loaded, found, |loaded|, slice, ids);
    }
  }

  /** Every row that the query finds has an owner. */
  lemma OwnersExist(t: Table, users: seq<User>, ids: seq<string>, found: seq<Row>)
    requires |ids| == |users|
    requires Answers(t, (r: Row) => r.referringUserId.Some? && r.referringUserId.value in ids, found)
    ensures forall k :: 0 <= k < |found| ==> Owner(users, ids, found[k].referringUserId) != null
  {
  }

  /** The loader's query, which is not run for no ids. */
  method FetchReferred(db: DB, up: bool, slice: seq<User>, ghost ids: seq<string>)
    returns (ok: bool, loaded: seq<User>, ghost found: seq<Row>)
    requires db.Valid() && |ids| == |slice| && forall i :: 0 <= i < |slice| ==> slice[i].row.id == ids[i]
    ensures ok <==> up || slice == []
    ensures ok ==> Answers(db.table, (r: Row) => r.referringUserId.Some? && r.referringUserId.value in ids, found)
    ensures !ok ==> loaded == []
    ensures |loaded| == |found| && forall k :: 0 <= k < |found| ==> loaded[k].row == found[k] && loaded[k].R == None
    ensures fresh(Objects(loaded)) && forall i, j :: 0 <= i < j < |loaded| ==> loaded[i] != loaded[j]
    ensures forall k :: 0 <= k < |found| ==> Owner(slice, ids, found[k].referringUserId) != null
  {
    ok, loaded, found := true, [], [];
    var args := IdsNamed(slice, ids);
    assert forall a :: a in ids <==> a in args;
    assert slice != [] ==> ids[0] in args;
    if |args| != 0 {
      var some :| some in args;
      assert some in ids;
      ok, loaded, found := Fetch(db, up, (r: Row) => r.referringUserId.Some? && r.referringUserId.value in args);
    }
    if ok {
      OwnersExist(db.table, slice, ids, found);
    }
  }

  /** The loader, told in terms of the ids and pointers that the objects have at first. */
  method LoadReferredOf(db: DB, up: bool, slice: seq<User>, ghost ids: seq<string>, ghost was: map<User, Related>)
    returns (ok: bool, loaded: seq<User>, ghost found: seq<Row>)
    requires db.Valid() && |ids| == |slice| && forall i :: 0 <= i < |slice| ==> slice[i].row.id == ids[i]
    requires was.Keys == Objects(slice) && forall u :: u in was ==> was[u] == Related(u.Referrer(), u.Referred())
    modifies Objects(slice)`R
    ensures |found| == |loaded| && fresh(Objects(loaded))
    ensures forall i, j :: 0 <= i < j < |loaded| ==> loaded[i] != loaded[j]
    ensures forall k :: 0 <= k < |found| ==> loaded[k].row == found[k]
    ensures !ok ==> loaded == []
    ensures ok <==> up || slice == []
    ensures ok ==> Answers(db.table, (r: Row) => r.referringUserId.Some? && r.referringUserId.value in ids, found)
    ensures forall u :: u in slice ==>
              u.R == Some(was[u].(
                ReferringUserUsers := was[u].ReferringUserUsers + OwnedIn(loaded, found, |loaded|, slice, ids, u)))
    ensures forall k :: 0 <= k < |loaded| ==> Owner(slice, ids, found[k].referringUserId) != null
    ensures forall k :: 0 <= k < |loaded| ==> loaded[k].R == Owned(Owner(slice, ids, found[k].referringUserId))
  {
    ghost var t := db.table;
    EnsureRs(slice);
    ok, loaded, found := FetchReferred(db, up, slice, ids);
    assert db.table == t;
    Distribute(slice, ids, loaded, found, was);
  }

  /**
   The eager loader of referred users, for a slice of objects. The rows that name an object of the slice are loaded;
   each joins the list of exactly one object, the first with the named id, and points back at it.
   */
  method LoadReferringUserUsers(db: DB, up: bool, slice: seq<User>)
    returns (ok: bool, loaded: seq<User>, ghost found: seq<Row>)
    requires db.Valid()
    modifies Objects(slice)`R
    ensures |found| == |loaded| && fresh(Objects(loaded))
    ensures forall i, j :: 0 <= i < j < |loaded| ==> loaded[i] != loaded[j]
    ensures forall k :: 0 <= k < |found| ==> loaded[k].row == found[k]
    ensures !ok ==> loaded == []
    ensures ok <==> up || slice == []
    ensures var ids := IdsOf(old(RowsOf(slice)));
            && (ok ==> Answers(db.table, (r: Row) => r.referringUserId.Some? && r.referringUserId.value in ids, found))
            && (forall i :: 0 <= i < |slice| ==>
                  var owned := OwnedIn(loaded, found, |loaded|, slice, ids, slice[i]);
                  slice[i].R == Some(Related(old(slice[i].Referrer()), old(slice[i].Referred()) + owned)))
            && (forall k :: 0 <= k < |loaded| ==>
                  && Owner(slice, ids, found[k].referringUserId) != null
                  && loaded[k].R == Owned(Owner(slice, ids, found[k].referringUserId)))
  {
    ghost var was: map<User, Related> := map u | u in slice :: Related(u.Referrer(), u.Referred());
    ok, loaded, found := LoadReferredOf(db, up, slice, IdsOf(RowsOf(slice)), was);
  }

  /** When all loaded rows name the id of the one object, it owns them all. */
  lemma {:induction false} OwnedByOne(loaded: seq<User>, found: seq<Row>, n: nat, u: User, id: string)
    requires n <= |loaded| == |found|
    requires forall k :: 0 <= k < n ==> found[k].referringUserId == Some(id)
    ensures OwnedIn(loaded, found, n, [u], [id], u) == loaded[..n]
  {
    if n != 0 {
      OwnedByOne(loaded, found, n - 1, u, id);
      OwnerIs([u], [id], found[n - 1].referringUserId, 0);
      assert loaded[..n] == loaded[..n - 1] + [loaded[n - 1]];
    }
  }

  /** The singular loader's loop: the loaded rows point back at the object. */
  method PointBack(loaded: seq<User>, local: User)
    requires forall k :: 0 <= k < |loaded| ==> loaded[k].R == None
    requires forall i, j :: 0 <= i < j < |loaded| ==> loaded[i] != loaded[j]
    modifies Objects(loaded)`R
    ensures forall k :: 0 <= k < |loaded| ==> loaded[k].R == Some(Related(local, []))
  {
    for i := 0 to |loaded|
      invariant forall k :: 0 <= k < |loaded| ==> loaded[k].R == if k < i then Some(Related(local, [])) else None
    {
      var foreign := loaded[i];
      if foreign.R.None? {
        foreign.R := Some(Related(null, []));
      }
      foreign.R := Some(foreign.R.value.(ReferringUser := local));
    }
  }

  /** The singular loader: the list of the object is replaced, not extended, by the rows that name it. */
  method LoadReferringUserUsersOfOne(db: DB, up: bool, local: User)
    returns (ok: bool, loaded: seq<User>, ghost found: seq<Row>)
    requires db.Valid()
    modifies local`R
    ensures |found| == |loaded| && fresh(Objects(loaded))
    ensures forall i, j :: 0 <= i < j < |loaded| ==> loaded[i] != loaded[j]
    ensures var id := local.row.id;
            ok ==> Answers(db.table, (r: Row) => r.referringUserId.Some? && r.referringUserId.value in [id], found)
    ensures ok <==> up
    ensures local.R == Some(Related(old(local.Referrer()), if ok then loaded else old(local.Referred())))
    ensures ok ==> forall k :: 0 <= k < |loaded| ==>
              loaded[k].row == found[k] && loaded[k].R == Some(Related(local, []))
  {
    local.EnsureR();
    var args := {local.row.id};
    assert forall x :: x in args <==> x in [local.row.id];
    ok, loaded, found := Fetch(db, up, (r: Row) => r.referringUserId.Some? && r.referringUserId.value in args);
    if !ok {
      return;
    }
    local.R := Some(local.R.value.(ReferringUserUsers := loaded));
    PointBack(loaded, local);
  }
}

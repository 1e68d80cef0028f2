/** When the eager loaders leave objects, pointers and table in agreement, for whole slices of objects. */
module LoadedAgreement {
  import opened Consistency
  import opened Database
  import opened Loaders
  import opened UserObjects
  import opened Users
  import opened Wrappers

  ghost predicate AllDifferent(users: seq<User>) {
    forall i, j :: 0 <= i < j < |users| ==> users[i] != users[j]
  }

  /** The objects of a slice, with an id each, and the objects loaded for them. */
  ghost predicate Sliced(slice: seq<User>, ids: seq<string>, loaded: seq<User>, found: seq<Row>, rows: map<User, Row>,
                         Rs: map<User, Option<Related>>, t: Table)
  {
    && |ids| == |slice| && |found| == |loaded|
    && AllDifferent(slice) && AllDifferent(loaded) && Objects(slice) !! Objects(loaded)
    && rows.Keys == Rs.Keys == Objects(slice) + Objects(loaded)
    && (forall i, j :: 0 <= i < j < |ids| ==> ids[i] != ids[j])
    && (forall i :: 0 <= i < |slice| ==> rows[slice[i]].id == ids[i] && Agrees(rows[slice[i]], t))
    && (forall k :: 0 <= k < |loaded| ==> rows[loaded[k]] == found[k])
    && (forall k :: 0 <= k < |found| ==> found[k].id in t && t[found[k].id] == found[k])
    && DistinctIds(found)
  }

  lemma IdsDiffer(users: seq<User>, ids: seq<string>, rows: map<User, Row>)
    requires |ids| == |users| && forall i :: 0 <= i < |users| ==> users[i] in rows && rows[users[i]].id == ids[i]
    requires forall i, j :: 0 <= i < j < |ids| ==> ids[i] != ids[j]
    ensures forall u, v :: u in users && v in users && rows[u].id == rows[v].id ==> u == v
  {
    forall u, v | u in users && v in users && rows[u].id == rows[v].id
      ensures u == v
    {
      var i :| 0 <= i < |users| && users[i] == u;
      var j :| 0 <= j < |users| && users[j] == v;
      assert ids[i] == ids[j];
    }
  }

  lemma AgreeAll(loaded: seq<User>, found: seq<Row>, rows: map<User, Row>, t: Table)
    requires |found| == |loaded| && forall k :: 0 <= k < |loaded| ==> loaded[k] in rows && rows[loaded[k]] == found[k]
    requires forall k :: 0 <= k < |found| ==> found[k].id in t && t[found[k].id] == found[k]
    ensures forall u :: u in loaded ==> Agrees(rows[u], t)
  {
  }

  /** Where loaded and sliced objects share no id, each object has an id of its own. */
  lemma RowwiseWhen(slice: seq<User>, ids: seq<string>, loaded: seq<User>, found: seq<Row>, rows: map<User, Row>,
                    Rs: map<User, Option<Related>>, t: Table)
    requires Sliced(slice, ids, loaded, found, rows, Rs, t)
    requires forall k :: 0 <= k < |found| ==> found[k].id !in ids
    ensures Rowwise(Objects(slice) + Objects(loaded), rows, t)
  {
    IdsDiffer(slice, ids, rows);
    IdsDiffer(loaded, IdsOf(found), rows);
    AgreeAll(loaded, found, rows, t);
    assert forall u :: u in slice ==> rows[u].id in ids && Agrees(rows[u], t);
    assert forall u :: u in loaded ==> rows[u].id !in ids;
  }

  /** What LoadReferringUserUsers leaves, for objects that listed nobody before. */
  ghost predicate ReferredLoaded(slice: seq<User>, ids: seq<string>, loaded: seq<User>, found: seq<Row>,
                                 rows: map<User, Row>, Rs: map<User, Option<Related>>, t: Table)
  {
    && Sliced(slice, ids, loaded, found, rows, Rs, t)
    && Answers(t, (r: Row) => r.referringUserId.Some? && r.referringUserId.value in ids, found)
    && (forall k :: 0 <= k < |loaded| ==> Rs[loaded[k]] == Owned(Owner(slice, ids, found[k].referringUserId)))
    && (forall i :: 0 <= i < |slice| ==>
          Rs[slice[i]].Some? && ReferredIn(Rs[slice[i]]) == OwnedIn(loaded, found, |loaded|, slice, ids, slice[i]))
  }

  /** No object of the slice refers to one of the slice, by id or by pointer. */
  ghost predicate Unrelated(slice: seq<User>, ids: seq<string>, rows: map<User, Row>, Rs: map<User, Option<Related>>)
    requires Objects(slice) <= rows.Keys && Objects(slice) <= Rs.Keys
  {
    forall u :: u in slice ==>
      && (rows[u].referringUserId.Some? ==> rows[u].referringUserId.value !in ids)
      && ReferrerIn(Rs[u]) !in slice
  }

  /** A loaded object is listed by its owner, names it and points at it. */
  lemma OwnedInStep(slice: seq<User>, ids: seq<string>, loaded: seq<User>, found: seq<Row>, i: nat, k: nat)
    requires |ids| == |slice| && |found| == |loaded| && i < |slice| && k < |loaded|
    requires AllDifferent(slice) && AllDifferent(loaded) && forall a, b :: 0 <= a < b < |ids| ==> ids[a] != ids[b]
    requires Owner(slice, ids, found[k].referringUserId) != null
    ensures InStep(loaded[k] in OwnedIn(loaded, found, |loaded|, slice, ids, slice[i]), found[k],
                   Owned(Owner(slice, ids, found[k].referringUserId)), slice[i], ids[i])
  {
    OwnedMembers(loaded, found, |loaded|, slice, ids, slice[i], k);
    OwnerExactly(slice, ids, found[k].referringUserId, i);
  }

  /** The owner is the object with the id that is named, and no other. */
  lemma OwnerExactly(slice: seq<User>, ids: seq<string>, referrer: Option<string>, i: nat)
    requires |ids| == |slice| && i < |slice| && AllDifferent(slice)
    requires forall a, b :: 0 <= a < b < |ids| ==> ids[a] != ids[b]
    requires Owner(slice, ids, referrer) != null
    ensures Owner(slice, ids, referrer) == slice[i] <==> referrer == Some(ids[i])
  {
    var j :| 0 <= j < |ids| && Some(ids[j]) == referrer;
    OwnerIs(slice, ids, referrer, j);
    if i != j {
      assert slice[i] != slice[j] && ids[i] != ids[j];
    }
  }

  /** Loading the referred users of a slice leaves all of it in agreement exactly if none of it refers to any of it. */
  lemma ReferredLoadedConsistent(slice: seq<User>, ids: seq<string>, loaded: seq<User>, found: seq<Row>,
                                 rows: map<User, Row>, Rs: map<User, Option<Related>>, t: Table)
    requires Keyed(t) && ReferredLoaded(slice, ids, loaded, found, rows, Rs, t)
    ensures (forall i :: 0 <= i < |slice| ==> Consistent(slice[i], Objects(slice) + Objects(loaded), rows, Rs, t))
            <==> Unrelated(slice, ids, rows, Rs)
  {
    var all := Objects(slice) + Objects(loaded);
    if Unrelated(slice, ids, rows, Rs) {
      UnrelatedIds(slice, ids, loaded, found, rows, Rs, t);
      RowwiseWhen(slice, ids, loaded, found, rows, Rs, t);
      forall i | 0 <= i < |slice|
        ensures Consistent(slice[i], all, rows, Rs, t)
      {
        UnrelatedLinked(slice, ids, loaded, found, rows, Rs, t, i);
      }
    }
    if forall i :: 0 <= i < |slice| ==> Consistent(slice[i], all, rows, Rs, t) {
      forall u | u in slice
        ensures rows[u].referringUserId.Some? ==> rows[u].referringUserId.value !in ids
        ensures ReferrerIn(Rs[u]) !in slice
      {
        forall i | 0 <= i < |slice|
          ensures rows[u].referringUserId != Some(ids[i]) && ReferrerIn(Rs[u]) != slice[i]
        {
          OwnedBefore(loaded, found, |loaded|, slice, ids, slice[i]);
          assert loaded[..|loaded|] == loaded;
          assert InStep(u in ReferredIn(Rs[slice[i]]), rows[u], Rs[u], slice[i], ids[i]);
        }
      }
    }
  }

  /** A loaded id that is one of the slice would make an object of the slice name one. */
  lemma UnrelatedIds(slice: seq<User>, ids: seq<string>, loaded: seq<User>, found: seq<Row>, rows: map<User, Row>,
                     Rs: map<User, Option<Related>>, t: Table)
    requires ReferredLoaded(slice, ids, loaded, found, rows, Rs, t) && Unrelated(slice, ids, rows, Rs)
    ensures forall k :: 0 <= k < |found| ==> found[k].id !in ids
  {
    forall k, i | 0 <= k < |found| && 0 <= i < |ids|
      ensures found[k].id != ids[i]
    {
      assert slice[i] in slice && Agrees(rows[slice[i]], t);
    }
  }

  lemma UnrelatedLinked(slice: seq<User>, ids: seq<string>, loaded: seq<User>, found: seq<Row>, rows: map<User, Row>,
                        Rs: map<User, Option<Related>>, t: Table, i: nat)
    requires ReferredLoaded(slice, ids, loaded, found, rows, Rs, t) && Unrelated(slice, ids, rows, Rs) && i < |slice|
    ensures Consistency.Linked(slice[i], Objects(slice) + Objects(loaded), rows, Rs)
  {
    var list := ReferredIn(Rs[slice[i]]);
    OwnedBefore(loaded, found, |loaded|, slice, ids, slice[i]);
    assert loaded[..|loaded|] == loaded;
    OwnersExist(t, slice, ids, found);
    forall u | u in slice + loaded
      ensures InStep(u in list, rows[u], Rs[u], slice[i], ids[i])
    {
      if u in loaded {
        var k :| 0 <= k < |loaded| && loaded[k] == u;
        OwnedInStep(slice, ids, loaded, found, i, k);
      } else {
        assert u in slice && ids[i] in ids;
      }
    }
  }

  /** What LoadReferringUser leaves, for objects that pointed at none of the loaded ones before. */
  ghost predicate ReferrersLoaded(slice: seq<User>, ids: seq<string>, loaded: seq<User>, found: seq<Row>,
                                  rows: map<User, Row>, Rs: map<User, Option<Related>>, t: Table,
                                  sliceRows: seq<Row>, before: seq<User?>)
  {
    && Sliced(slice, ids, loaded, found, rows, Rs, t)
    && |sliceRows| == |before| == |slice|
    && (forall i :: 0 <= i < |slice| ==> rows[slice[i]] == sliceRows[i] && before[i] !in loaded)
    && (forall i :: 0 <= i < |slice| ==>
          ReferrerIn(Rs[slice[i]]) == Named(IndexById(loaded, found), sliceRows[i].referringUserId, before[i]))
    && (forall k :: 0 <= k < |loaded| ==>
          Rs[loaded[k]] == Loaders.Listing(NamingIn(slice, sliceRows, |slice|, found[k].id)))
  }

  /** No loaded row is one of the slice's, and none names another loaded one. */
  ghost predicate OneLevel(ids: seq<string>, found: seq<Row>) {
    && (forall k :: 0 <= k < |found| ==> found[k].id !in ids)
    && (forall j, k :: 0 <= j < |found| && 0 <= k < |found| ==> found[j].referringUserId != Some(found[k].id))
  }

  lemma SlicedInStep(slice: seq<User>, ids: seq<string>, loaded: seq<User>, found: seq<Row>, rows: map<User, Row>,
                     Rs: map<User, Option<Related>>, t: Table, sliceRows: seq<Row>, before: seq<User?>, i: nat, k: nat)
    requires ReferrersLoaded(slice, ids, loaded, found, rows, Rs, t, sliceRows, before)
    requires i < |slice| && k < |loaded|
    ensures InStep(slice[i] in ReferredIn(Rs[loaded[k]]), rows[slice[i]], Rs[slice[i]], loaded[k], found[k].id)
  {
    DirectionsAgree(slice, sliceRows, before[i], loaded, found, i, k);
    PointsExactly(loaded, found, sliceRows[i].referringUserId, before[i], k);
  }

  /** A loaded referrer lists only objects of the slice. */
  lemma ListsSlice(slice: seq<User>, sliceRows: seq<Row>, id: string)
    requires |sliceRows| == |slice|
    ensures forall u :: u in NamingIn(slice, sliceRows, |slice|, id) ==> u in slice
  {
    NamingBefore(slice, sliceRows, |slice|, id);
    assert slice[..|slice|] == slice;
  }

  lemma {:induction false} NamingBefore(slice: seq<User>, sliceRows: seq<Row>, n: nat, id: string)
    requires n <= |slice| == |sliceRows|
    ensures forall u :: u in NamingIn(slice, sliceRows, n, id) ==> u in slice[..n]
  {
    if n != 0 {
      NamingBefore(slice, sliceRows, n - 1, id);
      assert slice[..n] == slice[..n - 1] + [slice[n - 1]];
    }
  }

  lemma ApartInStep(list: seq<User>, slice: seq<User>, u: User, row: Row, r: Option<Related>, o: User, id: string)
    requires (forall v :: v in list ==> v in slice) && u !in slice && ReferrerIn(r) == null
    ensures InStep(u in list, row, r, o, id) <==> row.referringUserId != Some(id)
  {
  }

  /** A loaded referrer is in step with another one, or with itself, exactly if it does not name it. */
  lemma LoadedInStep(slice: seq<User>, ids: seq<string>, loaded: seq<User>, found: seq<Row>, rows: map<User, Row>,
                     Rs: map<User, Option<Related>>, t: Table, sliceRows: seq<Row>, before: seq<User?>, j: nat, k: nat)
    requires ReferrersLoaded(slice, ids, loaded, found, rows, Rs, t, sliceRows, before)
    requires j < |loaded| && k < |loaded|
    ensures InStep(loaded[j] in ReferredIn(Rs[loaded[k]]), rows[loaded[j]], Rs[loaded[j]], loaded[k], found[k].id)
            <==> found[j].referringUserId != Some(found[k].id)
  {
    var list := ReferredIn(Rs[loaded[k]]);
    ListsSlice(slice, sliceRows, found[k].id);
    assert list == NamingIn(slice, sliceRows, |slice|, found[k].id) && loaded[j] in loaded;
    ApartInStep(list, slice, loaded[j], found[j], Rs[loaded[j]], loaded[k], found[k].id);
  }

  lemma OneLevelLinked(slice: seq<User>, ids: seq<string>, loaded: seq<User>, found: seq<Row>, rows: map<User, Row>,
                       Rs: map<User, Option<Related>>, t: Table, sliceRows: seq<Row>, before: seq<User?>, k: nat)
    requires ReferrersLoaded(slice, ids, loaded, found, rows, Rs, t, sliceRows, before)
    requires OneLevel(ids, found) && k < |loaded|
    ensures Consistency.Linked(loaded[k], Objects(slice) + Objects(loaded), rows, Rs)
  {
    var list := ReferredIn(Rs[loaded[k]]);
    ListsSlice(slice, sliceRows, found[k].id);
    forall i | 0 <= i < |slice|
      ensures InStep(slice[i] in list, rows[slice[i]], Rs[slice[i]], loaded[k], found[k].id)
    {
      SlicedInStep(slice, ids, loaded, found, rows, Rs, t, sliceRows, before, i, k);
    }
    forall j | 0 <= j < |loaded|
      ensures InStep(loaded[j] in list, rows[loaded[j]], Rs[loaded[j]], loaded[k], found[k].id)
    {
      LoadedInStep(slice, ids, loaded, found, rows, Rs, t, sliceRows, before, j, k);
    }
    LinkedByIndex(slice, loaded, rows, Rs, loaded[k], list, found[k].id);
  }

  lemma LinkedByIndex(slice: seq<User>, loaded: seq<User>, rows: map<User, Row>, Rs: map<User, Option<Related>>,
                      o: User, list: seq<User>, id: string)
    requires rows.Keys == Rs.Keys == Objects(slice) + Objects(loaded) && o in rows
    requires list == ReferredIn(Rs[o]) && rows[o].id == id && forall u :: u in list ==> u in slice
    requires forall i :: 0 <= i < |slice| ==> InStep(slice[i] in list, rows[slice[i]], Rs[slice[i]], o, id)
    requires forall j :: 0 <= j < |loaded| ==> InStep(loaded[j] in list, rows[loaded[j]], Rs[loaded[j]], o, id)
    ensures Consistency.Linked(o, Objects(slice) + Objects(loaded), rows, Rs)
  {
  }

  /** Loading the referrers of a slice leaves every loaded one in agreement exactly if the loading is of one level. */
  lemma ReferrersLoadedConsistent(slice: seq<User>, ids: seq<string>, loaded: seq<User>, found: seq<Row>,
                                  rows: map<User, Row>, Rs: map<User, Option<Related>>, t: Table,
                                  sliceRows: seq<Row>, before: seq<User?>)
    requires ReferrersLoaded(slice, ids, loaded, found, rows, Rs, t, sliceRows, before)
    ensures (forall k :: 0 <= k < |loaded| ==> Consistent(loaded[k], Objects(slice) + Objects(loaded), rows, Rs, t))
            <==> OneLevel(ids, found)
  {
    var all := Objects(slice) + Objects(loaded);
    if OneLevel(ids, found) {
      RowwiseWhen(slice, ids, loaded, found, rows, Rs, t);
      forall k | 0 <= k < |loaded|
        ensures Consistent(loaded[k], all, rows, Rs, t)
      {
        OneLevelLinked(slice, ids, loaded, found, rows, Rs, t, sliceRows, before, k);
      }
    }
    if forall k :: 0 <= k < |loaded| ==> Consistent(loaded[k], all, rows, Rs, t) {
      forall k | 0 <= k < |found|
        ensures found[k].id !in ids
        ensures forall j :: 0 <= j < |found| ==> found[j].referringUserId != Some(found[k].id)
      {
        assert Consistent(loaded[k], all, rows, Rs, t) && loaded[k] in loaded;
        forall i | 0 <= i < |ids|
          ensures found[k].id != ids[i]
        {
          assert slice[i] in slice && rows[slice[i]].id == ids[i];
        }
        forall j | 0 <= j < |found|
          ensures found[j].referringUserId != Some(found[k].id)
        {
          assert loaded[j] in loaded;
          LoadedInStep(slice, ids, loaded, found, rows, Rs, t, sliceRows, before, j, k);
        }
      }
    }
  }
}

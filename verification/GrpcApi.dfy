/** The gRPC service: what it shows of a user and of the user's referrer. */
module GrpcApi {
  import opened Database
  import opened UserObjects
  import opened Users
  import opened Wrappers
  import Loaders
  import Service

  /** pb.UserReferrer; unset fields are empty. */
  datatype UserReferrer = UserReferrer(ethereumAddress: Bytes, referrerValid: bool, id: string)

  /** pb.User, without the printed form of the address. */
  datatype View = View(
    id: string,
    ethereumAddressBytes: Option<Bytes>,
    emailAddress: Option<string>,
    referredBy: Option<UserReferrer>)

  datatype Reply<+T> = Found(value: T) | NotFound | Internal

  /** The row that a user's referring_user_id names, if the table has it. */
  function ReferrerRow(t: Table, row: Row): Option<Row> {
    if row.referringUserId.Some? && row.referringUserId.value in t then Some(t[row.referringUserId.value]) else None
  }

  /** The bytes of a column; NULL has none. */
  function BytesOf(address: Option<Bytes>): Bytes {
    if address.Some? then address.value else []
  }

  function ReferredBy(referrer: Option<Row>): UserReferrer {
    if referrer.Some? && referrer.value.account.ethereumConfirmed then
      UserReferrer(BytesOf(referrer.value.account.ethereumAddress), true, referrer.value.id)
    else UserReferrer([], false, "")
  }

  function ViewOf(row: Row, referrer: Option<Row>): View {
    View(row.id,
         if row.account.ethereumConfirmed then row.account.ethereumAddress else None,
         if row.account.emailConfirmed then row.account.emailAddress else None,
         if row.account.referredAt.Some? then Some(ReferredBy(referrer)) else None)
  }

  /** What a view shows: email and address only when confirmed, a referrer only of those who were referred. */
  lemma ViewExactly(row: Row, referrer: Option<Row>)
    ensures var v := ViewOf(row, referrer);
            && v.id == row.id
            && (v.emailAddress.Some? <==> row.account.emailConfirmed && row.account.emailAddress.Some?)
            && (v.emailAddress.Some? ==> v.emailAddress == row.account.emailAddress)
            && (v.ethereumAddressBytes.Some? <==> row.account.ethereumConfirmed && row.account.ethereumAddress.Some?)
            && (v.ethereumAddressBytes.Some? ==> v.ethereumAddressBytes == row.account.ethereumAddress)
            && (v.referredBy.Some? <==> row.account.referredAt.Some?)
  {
  }

  /** What it shows of a referrer: id and address exactly when confirmed, and else nothing. */
  lemma ReferredByExactly(referrer: Option<Row>)
    ensures var v := ReferredBy(referrer);
            && (v.referrerValid <==> referrer.Some? && referrer.value.account.ethereumConfirmed)
            && (v.referrerValid ==> v.id == referrer.value.id)
            && (v.referrerValid && referrer.value.account.ethereumAddress.Some? ==>
                  v.ethereumAddress == referrer.value.account.ethereumAddress.value)
            && (v.referrerValid && referrer.value.account.ethereumAddress.None? ==> v.ethereumAddress == [])
            && (!v.referrerValid ==> v.id == "" && v.ethereumAddress == [])
  {
  }

  /** What is not confirmed does not show: views are the same whatever it is. */
  lemma UnconfirmedIsHidden(row: Row, referrer: Option<Row>, email: Option<string>, address: Option<Bytes>)
    ensures !row.account.emailConfirmed ==>
              ViewOf(row.(account := row.account.(emailAddress := email)), referrer) == ViewOf(row, referrer)
    ensures !row.account.ethereumConfirmed ==>
              ViewOf(row.(account := row.account.(ethereumAddress := address)), referrer) == ViewOf(row, referrer)
    ensures row.account.referredAt.None? ==> ViewOf(row, referrer) == ViewOf(row, None)
  {
  }

  ghost function LoadedReferrer(user: User): Option<Row>
    reads user, user.Referrer()
  {
    if user.Referrer() == null then None else Some(user.Referrer().row)
  }

  /** Follows the relation struct without a check, so it must be there if the user was referred. */
  method FormatUser(user: User) returns (out: View)
    requires user.row.account.referredAt.Some? ==> user.R.Some?
    ensures out == ViewOf(user.row, LoadedReferrer(user))
  {
    out := View(user.row.id, None, None, None);
    if user.row.account.ethereumConfirmed {
      out := out.(ethereumAddressBytes := user.row.account.ethereumAddress);
    }
    if user.row.account.emailConfirmed {
      out := out.(emailAddress := user.row.account.emailAddress);
    }
    if user.row.account.referredAt.Some? {
      var pbRef := UserReferrer([], false, "");
      var ref := user.R.value.ReferringUser;
      if ref != null && ref.row.account.ethereumConfirmed {
        pbRef := pbRef.(referrerValid := true);
        pbRef := pbRef.(ethereumAddress := BytesOf(ref.row.account.ethereumAddress));
        pbRef := pbRef.(id := ref.row.id);
      }
      out := out.(referredBy := Some(pbRef));
    }
  }

  /** Whether the two queries of a request are answered: the one for users and the one for their referrers. */
  datatype Queries = Queries(answered: bool, loaded: bool)

  /** A row is shown if its query is answered and, when it names a referrer, the one for that is too. */
  predicate Served(up: Queries, row: Row) {
    up.answered && (up.loaded || row.referringUserId.None?)
  }

  /** The first matching row with its referrer; the referrer is read by a second query, from a state of its own. */
  method Lookup(db: DB, later: DB, up: Queries, matches: Row -> bool, key: Row -> int) returns (r: Reply<User>)
    requires db.Valid() && later.Valid()
    ensures r.Found? ==> fresh(r.value) && Top(db.table, matches, key, r.value.row) && Served(up, r.value.row)
    ensures r.Found? ==> r.value.Referrer() != r.value
    ensures r.Found? ==> r.value.R.Some? && LoadedReferrer(r.value) == ReferrerRow(later.table, r.value.row)
    ensures r.NotFound? <==> up.answered && forall id :: id in db.table ==> !matches(db.table[id])
    ensures r.Internal? && up.answered ==>
              exists id :: id in db.table && Top(db.table, matches, key, db.table[id]) && !Served(up, db.table[id])
  {
    var ok, user := One(db, up.answered, matches, key);
    if !ok {
      return Internal;
    }
    if user == null {
      return NotFound;
    }
    ok := Loaders.LoadReferringUserOfOne(later, up.loaded, user);
    assert Top(db.table, matches, key, db.table[user.row.id]);
    r := if ok then Found(user) else Internal;
  }

  method GetUser(db: DB, later: DB, up: Queries, id: string) returns (r: Reply<View>)
    requires db.Valid() && later.Valid()
    ensures r.NotFound? <==> up.answered && id !in db.table
    ensures r.Found? <==> id in db.table && Served(up, db.table[id])
    ensures r.Found? ==> r.value == ViewOf(db.table[id], ReferrerRow(later.table, db.table[id]))
  {
    assert id in db.table ==> db.table[id].id == id;
    var user := Lookup(db, later, up, (row: Row) => row.id == id, (row: Row) => 0);
    if user.Found? {
      var view := FormatUser(user.value);
      return Found(view);
    }
    r := if user.NotFound? then NotFound else Internal;
  }

  /** The row is confirmed and has the address; a request without one asks for the rows that have none. */
  predicate Confirmed(row: Row, address: Option<Bytes>) {
    row.account.ethereumAddress == address && row.account.ethereumConfirmed
  }

  /** Which of several rows is looked at is left to the database; the request fails only if that one is not served. */
  method GetUserByEthAddr(db: DB, later: DB, up: Queries, address: Option<Bytes>) returns (r: Reply<View>)
    requires db.Valid() && later.Valid()
    ensures r.NotFound? <==> up.answered && forall id :: id in db.table ==> !Confirmed(db.table[id], address)
    ensures r.Found? ==> r.value.id in db.table && Confirmed(db.table[r.value.id], address)
    ensures r.Found? ==> Served(up, db.table[r.value.id])
    ensures r.Found? ==> r.value == ViewOf(db.table[r.value.id], ReferrerRow(later.table, db.table[r.value.id]))
    ensures r.Found? ==> r.value.ethereumAddressBytes == address && db.table[r.value.id].account.ethereumConfirmed
    ensures r.Internal? && up.answered ==>
              exists id :: id in db.table && Confirmed(db.table[id], address) && !Served(up, db.table[id])
  {
    var user := Lookup(db, later, up, (row: Row) => Confirmed(row, address), (row: Row) => 0);
    if user.Found? {
      var view := FormatUser(user.value);
      return Found(view);
    }
    r := if user.NotFound? then NotFound else Internal;
  }

  /** What the loader made an object point at is what the table has for it. */
  lemma LoadedAsNamed(t: Table, user: User, rows: seq<Row>, i: nat, loaded: seq<User>, found: seq<Row>)
    requires |found| == |loaded| && DistinctIds(found)
    requires forall k :: 0 <= k < |found| ==> loaded[k].row == found[k]
    requires forall k :: 0 <= k < |found| ==> found[k].id in t && found[k] == t[found[k].id]
    requires i < |rows| && user.row == rows[i]
    requires Loaders.LoadedAsInTable(t, rows, Loaders.IndexById(loaded, found))
    requires user.Referrer() == Loaders.Named(Loaders.IndexById(loaded, found), user.row.referringUserId, null)
    ensures LoadedReferrer(user) == ReferrerRow(t, user.row)
  {
    var byId, referrer := Loaders.IndexById(loaded, found), rows[i].referringUserId;
    if referrer.Some? && referrer.value in byId {
      var k :| 0 <= k < |found| && found[k].id == referrer.value;
      assert byId[found[k].id] == loaded[k];
    }
  }

  /** The loop over the selected users. */
  method FormatAll(users: seq<User>, ghost rows: seq<Row>, ghost t: Table) returns (out: seq<View>)
    requires |rows| == |users| && forall i :: 0 <= i < |users| ==> users[i].row == rows[i]
    requires forall i :: 0 <= i < |users| ==> users[i].R.Some? && LoadedReferrer(users[i]) == ReferrerRow(t, rows[i])
    ensures |out| == |rows| && forall i :: 0 <= i < |rows| ==> out[i] == ViewOf(rows[i], ReferrerRow(t, rows[i]))
  {
    out := [];
    for k := 0 to |users|
      invariant |out| == k && forall i :: 0 <= i < k ==> out[i] == ViewOf(rows[i], ReferrerRow(t, rows[i]))
    {
      var view := FormatUser(users[k]);
      out := out + [view];
    }
  }

  /** The views of all confirmed rows with the address, each once, newest first, with the referrers of a later state. */
  ghost predicate ShowsAll(t: Table, later: Table, address: Option<Bytes>, rows: seq<Row>, views: seq<View>) {
    && Answers(t, (row: Row) => Confirmed(row, address), rows) && Descending(rows, (row: Row) => row.createdAt)
    && |views| == |rows|
    && forall i :: 0 <= i < |rows| ==> views[i] == ViewOf(rows[i], ReferrerRow(later, rows[i]))
  }

  /** No user is shown before one that was created later. */
  lemma NewestFirst(t: Table, later: Table, address: Option<Bytes>, rows: seq<Row>, views: seq<View>, i: nat, j: nat)
    requires Keyed(t) && ShowsAll(t, later, address, rows, views) && i < j < |views|
    ensures views[i].id in t && views[j].id in t && views[i].id != views[j].id
    ensures t[views[i].id].createdAt >= t[views[j].id].createdAt
  {
    var key := (row: Row) => row.createdAt;
    assert key(rows[i]) >= key(rows[j]);
  }

  /** Some confirmed row names a referrer exactly if one of those selected does. */
  lemma SomeRowNames(t: Table, address: Option<Bytes>, rows: seq<Row>)
    requires Keyed(t) && Answers(t, (row: Row) => Confirmed(row, address), rows)
    ensures (forall id :: id in t && Confirmed(t[id], address) ==> t[id].referringUserId.None?) <==>
            (forall i :: 0 <= i < |rows| ==> rows[i].referringUserId.None?)
  {
    forall id | id in t && Confirmed(t[id], address)
      ensures exists i :: 0 <= i < |rows| && rows[i] == t[id]
    {
      assert t[id] in rows;
    }
  }

  /** Every confirmed user with the address, newest first; the request fails exactly if one of them is not served. */
  method GetUsersByEthereumAddress(db: DB, later: DB, up: Queries, address: Option<Bytes>)
    returns (r: Result<seq<View>>)
    requires db.Valid() && later.Valid()
    ensures r.Ok? ==> exists rows :: ShowsAll(db.table, later.table, address, rows, r.value)
    ensures r.Ok? <==>
            up.answered && forall id :: id in db.table && Confirmed(db.table[id], address) ==> Served(up, db.table[id])
  {
    var ok, users;
    ghost var rows;
    ok, users, rows := All(db, up.answered, (row: Row) => Confirmed(row, address), (row: Row) => row.createdAt);
    if !ok {
      return Err;
    }
    SomeRowNames(db.table, address, rows);
    assert RowsOf(users) == rows;
    var loaded;
    ghost var found;
    ok, loaded, found := Loaders.LoadReferringUser(later, up.loaded, users);
    if !ok {
      return Err;
    }
    forall i | 0 <= i < |users|
      ensures LoadedReferrer(users[i]) == ReferrerRow(later.table, rows[i])
    {
      LoadedAsNamed(later.table, users[i], rows, i, loaded, found);
    }
    var out := FormatAll(users, rows, later.table);
    assert ShowsAll(db.table, later.table, address, rows, out);
    r := Ok(out);
  }

  /** A user of the starting table as two reads of a run show it: the row at one time, its referrer at another. */
  ghost function Shown(t: Table, steps: seq<Service.Step>, id: string, i: nat, j: nat): View
    requires var h := Service.Run(Service.Start(t), steps).history; i < |h| && j < |h| && id in h[i]
  {
    var h := Service.Run(Service.Start(t), steps).history;
    ViewOf(h[i][id], ReferrerRow(h[j], h[i][id]))
  }

  /**
   In every run, whenever the two queries of a request are answered: a user who was referred shows it, and the referrer
   is valid exactly if the one the user started with was there at both times and is confirmed.
   */
  lemma ReferrerShownExactly(t: Table, steps: seq<Service.Step>, id: string, i: nat, j: nat)
    requires Sound(t)
    requires var h := Service.Run(Service.Start(t), steps).history; i < |h| && j < |h| && id in h[i]
    ensures id in t
    ensures var h, referrer := Service.Run(Service.Start(t), steps).history, t[id].referringUserId;
            var there := referrer.Some? && referrer.value in h[i] && referrer.value in h[j];
            Shown(t, steps, id, i, j).referredBy ==
              if t[id].account.referredAt.None? then None
              else Some(ReferredBy(if there then Some(t[referrer.value]) else None))
    ensures var h, referrer := Service.Run(Service.Start(t), steps).history, t[id].referringUserId;
            var there := referrer.Some? && referrer.value in h[i] && referrer.value in h[j];
            var shown := Shown(t, steps, id, i, j).referredBy;
            && (shown.Some? <==> t[id].account.referredAt.Some?)
            && (shown.Some? ==>
                  && (shown.value.referrerValid <==> there && t[referrer.value].account.ethereumConfirmed)
                  && (shown.value.referrerValid ==> shown.value.id == referrer.value))
  {
    Service.EveryRunIsSafe(t, steps, 0, i);
    Service.EveryRunIsSafe(t, steps, 0, j);
    var h := Service.Run(Service.Start(t), steps).history;
    assert Service.RowLater(t[id], h[i][id], h[i]);
    var referrer := h[i][id].referringUserId;
    if referrer.Some? && referrer.value in h[j] {
      assert Service.RowLater(t[referrer.value], h[j][referrer.value], h[j]);
    }
  }

  /** Once the referrer is deleted, no request that reads anything later shows it as valid. */
  lemma DeletedReferrerStaysInvalid(t: Table, steps: seq<Service.Step>, id: string, k: nat, i: nat, j: nat)
    requires Sound(t)
    requires var h := Service.Run(Service.Start(t), steps).history;
             k < |h| && i < |h| && j < |h| && (k <= i || k <= j) && id in h[i]
    requires var h := Service.Run(Service.Start(t), steps).history;
             id in t && t[id].referringUserId.Some? && t[id].referringUserId.value !in h[k]
    ensures var shown := Shown(t, steps, id, i, j).referredBy;
            shown.Some? ==> shown.value == UserReferrer([], false, "")
  {
    ReferrerShownExactly(t, steps, id, i, j);
    Service.EveryRunIsSafe(t, steps, k, if k <= i then i else j);
  }
}

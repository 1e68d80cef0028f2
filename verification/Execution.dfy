/** What the statements of Insert, Update and Upsert do to a row, and to the object they were built for. */
module Execution {
  import opened CacheKeys
  import opened ColumnNames
  import opened Reading
  import opened StatementReadings
  import opened Statements
  import opened Text
  import opened UpsertQuery
  import opened Users
  import opened Wrappers
  import BulkUpdate

  /** An object's fields, by the numbers that mappings give them. */
  type Fields<V> = map<nat, V>

  function Numbers(field: string -> nat, names: seq<string>): seq<nat> {
    seq(|names|, i requires 0 <= i < |names| => field(names[i]))
  }

  /** queries.BindMapping gives each column the number of its field, in order. */
  ghost predicate BindsTo(lib: Library, field: string -> nat) {
    forall names :: lib.bindMapping(names).Some? ==> lib.bindMapping(names).value == Numbers(field, names)
  }

  /** Every column has a field of its own. */
  ghost predicate HasFields<V>(o: Fields<V>, field: string -> nat, columns: set<string>) {
    && (forall c :: c in columns ==> field(c) in o)
    && (forall c, d :: c in columns && d in columns && field(c) == field(d) ==> c == d)
  }

  ghost predicate Distinct(names: seq<string>) {
    forall i, j :: 0 <= i < j < |names| ==> names[i] != names[j]
  }

  ghost predicate Among(names: seq<string>, columns: set<string>) {
    forall i :: 0 <= i < |names| ==> names[i] in columns
  }

  /** queries.ValuesFromMapping */
  function ValuesFrom<V>(o: Fields<V>, mapping: seq<nat>): seq<V>
    requires forall i :: 0 <= i < |mapping| ==> mapping[i] in o
  {
    seq(|mapping|, i requires 0 <= i < |mapping| => o[mapping[i]])
  }

  /** Scanning values through queries.PtrsFromMapping, one after the other. */
  function Scan<V>(o: Fields<V>, mapping: seq<nat>, values: seq<V>): Fields<V>
    requires |values| == |mapping|
  {
    if mapping == [] then o else
      var n := |mapping| - 1;
      Scan(o, mapping[..n], values[..n])[mapping[n] := values[n]]
  }

  /** The columns of a row, in the order of names. */
  function Returned<V>(row: BulkUpdate.Row<V>, names: seq<string>): seq<V>
    requires forall i :: 0 <= i < |names| ==> names[i] in row
  {
    seq(|names|, i requires 0 <= i < |names| => row[names[i]])
  }

  /** The values that the object has for the columns. */
  function Own<V>(o: Fields<V>, field: string -> nat, names: seq<string>): map<string, V>
    requires forall i :: 0 <= i < |names| ==> field(names[i]) in o
  {
    map c | c in names :: o[field(c)]
  }

  /** The row a VALUES list makes of its arguments: the i-th column gets the i-th one, and the others their defaults. */
  function Inserted<V>(defaults: BulkUpdate.Row<V>, columns: seq<string>, args: seq<V>): BulkUpdate.Row<V>
    requires |args| == |columns| && Among(columns, defaults.Keys)
  {
    BulkUpdate.Assign(defaults, BulkUpdate.SetParamNames(1, columns), args)
  }

  /** The columns of the object in their order, as UpdateAll's lemmas take them. */
  lemma OwnInOrder<V>(o: Fields<V>, field: string -> nat, names: seq<string>)
    requires Distinct(names) && forall i :: 0 <= i < |names| ==> field(names[i]) in o
    ensures BulkUpdate.Orders(Own(o, field, names), names, ValuesFrom(o, Numbers(field, names)))
  {
  }

  /** The inserted row has the object's values, and defaults elsewhere. */
  lemma InsertedRow<V>(defaults: BulkUpdate.Row<V>, o: Fields<V>, field: string -> nat, names: seq<string>)
    requires Distinct(names) && Among(names, defaults.Keys) && HasFields(o, field, defaults.Keys)
    ensures Inserted(defaults, names, ValuesFrom(o, Numbers(field, names))) == defaults + Own(o, field, names)
  {
    var values := ValuesFrom(o, Numbers(field, names));
    OwnInOrder(o, field, names);
    assert values[..|values|] == values;
    BulkUpdate.AssignOverwrites(defaults, Own(o, field, names), names, values, values);
  }

  /** After scanning, the returned columns are the row's, and no other field changed. */
  lemma {:induction false} Scanned<V>(o: Fields<V>, field: string -> nat, columns: set<string>, ret: seq<string>,
                                      row: BulkUpdate.Row<V>, c: string)
    requires HasFields(o, field, columns) && Among(ret, columns) && row.Keys == columns && c in columns
    ensures var o' := Scan(o, Numbers(field, ret), Returned(row, ret));
            field(c) in o' && o'[field(c)] == if c in ret then row[c] else o[field(c)]
    decreases |ret|
  {
    if ret != [] {
      var n := |ret| - 1;
      Scanned(o, field, columns, ret[..n], row, c);
      assert Numbers(field, ret)[..n] == Numbers(field, ret[..n]);
      assert Returned(row, ret)[..n] == Returned(row, ret[..n]);
      assert ret == ret[..n] + [ret[n]];
    }
  }

  /** The VALUES list of numbered placeholders. */
  function ParamsText(columns: seq<BulkUpdate.Bound>): string {
    Join(seq(|columns|, i requires 0 <= i < |columns| => "$" + Itoa(columns[i].param)), ",")
  }

  function NamesOf(columns: seq<BulkUpdate.Bound>): seq<string> {
    seq(|columns|, i requires 0 <= i < |columns| => columns[i].column)
  }

  /** The text of an insert whose columns are bound to parameters. */
  function InsertionText(columns: seq<BulkUpdate.Bound>, ret: seq<string>): string {
    (if columns == [] then "INSERT INTO " + UsersTable + " DEFAULT VALUES"
     else "INSERT INTO " + UsersTable + " (\"" + Join(NamesOf(columns), "\",\"")
          + "\") VALUES (" + ParamsText(columns) + ")")
    + if ret != [] then " RETURNING \"" + Join(ret, "\",\"") + "\"" else ""
  }

  /** In the built text the i-th name has the i-th placeholder, counting from 1. */
  lemma InsertBinds(wl: seq<string>, ret: seq<string>)
    ensures InsertText(wl, ret, ret != []) == InsertionText(BulkUpdate.SetParamNames(1, wl), ret)
  {
    var columns := BulkUpdate.SetParamNames(1, wl);
    assert NamesOf(columns) == wl;
    assert seq(|wl|, i => "$" + Itoa(i + 1)) ==
           seq(|columns|, i requires 0 <= i < |columns| => "$" + Itoa(columns[i].param));
  }

  /** The object after an insert: what was returned is scanned into it. */
  function Synced<V>(o: Fields<V>, mapping: seq<nat>, row: BulkUpdate.Row<V>, ret: seq<string>): Fields<V>
    requires |ret| == |mapping| && forall i :: 0 <= i < |ret| ==> ret[i] in row
  {
    Scan(o, mapping, Returned(row, ret))
  }

  ghost predicate Agree<V>(o: Fields<V>, field: string -> nat, row: BulkUpdate.Row<V>, columns: set<string>) {
    forall c :: c in columns ==> c in row && field(c) in o && o[field(c)] == row[c]
  }

  /** An object whose written columns have the row's values has them in the returned columns too once it is synced. */
  lemma SyncedAgrees<V>(o: Fields<V>, field: string -> nat, row: BulkUpdate.Row<V>, ret: seq<string>,
                        columns: set<string>)
    requires HasFields(o, field, row.Keys) && Among(ret, row.Keys) && columns <= row.Keys
    requires forall c :: c in columns && c !in ret ==> o[field(c)] == row[c]
    ensures Agree(Synced(o, Numbers(field, ret), row, ret), field, row, columns)
  {
    forall c | c in columns
      ensures var o' := Synced(o, Numbers(field, ret), row, ret); field(c) in o' && o'[field(c)] == row[c]
    {
      Scanned(o, field, row.Keys, ret, row, c);
    }
  }

  /**
   What an insert does: its i-th column is bound to the object's field of that column, so the row has the object's
   values there and defaults elsewhere; and once the returned columns are scanned, the object has the row's value of
   every column that was written or returned.
   */
  lemma InsertSynchronises<V>(lib: Library, call: InsertCall, field: string -> nat, o: Fields<V>,
                              defaults: BulkUpdate.Row<V>,
                              wl: seq<string>, ret: seq<string>)
    requires BuildInsert(lib, call).Some? && BindsTo(lib, field) && HasFields(o, field, defaults.Keys)
    requires (wl, ret) == lib.insertColumnSet(call.columns, call.nzDefaults)
    requires Distinct(wl) && Among(wl, defaults.Keys) && Among(ret, defaults.Keys)
    ensures var st := BuildInsert(lib, call).value;
            && st.query == InsertionText(BulkUpdate.SetParamNames(1, wl), ret)
            && st.valueMapping == Numbers(field, wl) && st.retMapping == Numbers(field, ret)
            && (Namable(wl) && Namable(ret) ==>
                  Tokens(st.query) == TableIdents + Idents(wl) + Params(|wl|) + Idents(ret))
    ensures var st := BuildInsert(lib, call).value;
            var row := Inserted(defaults, wl, ValuesFrom(o, st.valueMapping));
            && row == defaults + Own(o, field, wl)
            && Agree(Synced(o, st.retMapping, row, ret), field, row, (set c | c in wl) + (set c | c in ret))
  {
    InsertBinds(wl, ret);
    if Namable(wl) && Namable(ret) {
      InsertReads(wl, ret);
    }
    InsertedRow(defaults, o, field, wl);
    var row := defaults + Own(o, field, wl);
    assert row.Keys == defaults.Keys;
    SyncedAgrees(o, field, row, ret, (set c | c in wl) + (set c | c in ret));
  }

  /** "column"=$param */
  function BoundText(b: BulkUpdate.Bound): string {
    Quoted(b.column) + "=$" + Itoa(b.param)
  }

  function BoundsText(bounds: seq<BulkUpdate.Bound>, sep: string): string {
    Join(BoundTexts(bounds), sep)
  }

  function BoundTexts(bounds: seq<BulkUpdate.Bound>): seq<string> {
    seq(|bounds|, i requires 0 <= i < |bounds| => BoundText(bounds[i]))
  }

  /** The statement behind the text of an update: the columns in order, then the id. */
  function UpdateStatement(wl: seq<string>): BulkUpdate.Update {
    BulkUpdate.UpdateAllStatement(wl, 1)
  }

  function UpdateText(stmt: BulkUpdate.Update): string
    requires |stmt.clauses| == 1
  {
    "UPDATE " + UsersTable + " SET " + BoundsText(stmt.sets, ",") + " WHERE " + BoundsText(stmt.clauses[0], " AND ")
  }

  lemma UpdateBinds(wl: seq<string>)
    ensures UpdateText(UpdateStatement(wl)) ==
            "UPDATE " + UsersTable + " SET " + SetParamNames(wl, 1) + " WHERE \"id\"=$" + Itoa(|wl| + 1)
  {
    var stmt := UpdateStatement(wl);
    assert stmt.clauses[0] == [BulkUpdate.Bound("id", |wl| + 1)];
    assert BoundsText(stmt.clauses[0], " AND ") == Quoted("id") + "=$" + Itoa(|wl| + 1);
    assert BoundTexts(stmt.sets) == ParamTexts(wl, 1);
    var head, n := "UPDATE " + UsersTable + " SET " + SetParamNames(wl, 1), Itoa(|wl| + 1);
    assert UpdateText(stmt) == head + " WHERE " + (Quoted("id") + "=$" + n);
    WhereId(n);
    Regroup(head, " WHERE ", Quoted("id") + "=$" + n);
    Regroup(head, " WHERE \"id\"=$", n);
  }

  /**
   What an update does: the i-th placeholder is bound to the i-th column's field and the one after them to the id, so
   the object's values of the columns, and nothing else, go to the row with its id, and to no other.
   */
  lemma UpdateOverwrites<V>(lib: Library, columns: Columns, field: string -> nat, o: Fields<V>, t: BulkUpdate.Table<V>,
                            all: set<string>)
    requires BuildUpdate(lib, columns).Some? && BindsTo(lib, field) && HasFields(o, field, all)
    requires Distinct(UpdateColumns(lib, columns)) && Among(UpdateColumns(lib, columns), all)
    requires BulkUpdate.Rectangular(t, all) && "id" in all
    ensures var st, wl := BuildUpdate(lib, columns).value, UpdateColumns(lib, columns);
            && st.query == UpdateText(UpdateStatement(wl))
            && (Namable(wl) ==> Tokens(st.query) == TableIdents + Bound(wl) + [Ident("id"), Param(|wl| + 1)])
            && st.valueMapping == Numbers(field, wl + ["id"])
            && BulkUpdate.WellFormed(UpdateStatement(wl), all, ValuesFrom(o, st.valueMapping))
            && BulkUpdate.Executed(t, all, UpdateStatement(wl), ValuesFrom(o, st.valueMapping)) ==
               BulkUpdate.Overwritten(t, [o[field("id")]], Own(o, field, wl))
  {
    var wl := UpdateColumns(lib, columns);
    var values := ValuesFrom(o, Numbers(field, wl));
    UpdateBinds(wl);
    if Namable(wl) {
      UpdateReads(wl);
    }
    OwnInOrder(o, field, wl);
    assert ValuesFrom(o, Numbers(field, wl + ["id"])) == values + [o[field("id")]];
    BulkUpdate.StatementOverwrites(t, all, Own(o, field, wl), wl, values, [o[field("id")]]);
  }

  lemma {:induction false} WithoutMembers(names: seq<string>, name: string)
    ensures forall c :: c in Without(names, name) <==> c in names && c != name
    ensures Distinct(names) ==> Distinct(Without(names, name))
  {
    if names != [] {
      WithoutMembers(names[1..], name);
      assert forall c :: c in names <==> c == names[0] || c in names[1..];
      assert Distinct(names) ==> Distinct(names[1..]) && names[0] !in names[1..];
      var rest := Without(names[1..], name);
      assert names[0] != name ==> Without(names, name) == [names[0]] + rest;
    }
  }

  /** An update that is not told its columns never assigns created_at, and assigns all others of its set. */
  lemma CreatedAtIsKept(lib: Library, columns: Columns, c: string)
    ensures !lib.isWhitelist(columns) ==>
              (c in UpdateColumns(lib, columns) <==> c in lib.updateColumnSet(columns) && c != "created_at")
    ensures lib.isWhitelist(columns) ==> UpdateColumns(lib, columns) == lib.updateColumnSet(columns)
  {
    WithoutMembers(lib.updateColumnSet(columns), "created_at");
  }

  ghost function TableColumns(): (columns: set<string>)
    ensures "id" in columns
  {
    assert Names(AllColumns)[0] == "id";
    set name | name in Names(AllColumns)
  }

  /** The position of a column in the table. */
  function Place(c: Column): (i: nat)
    ensures i < |AllColumns| && AllColumns[i] == c
  {
    match c
    case Id => 0
    case EmailAddress => 1
    case EmailConfirmed => 2
    case EmailConfirmationSentAt => 3
    case EmailConfirmationKey => 4
    case CreatedAt => 5
    case CountryCode => 6
    case EthereumAddress => 7
    case AgreedTosAt => 8
    case AuthProviderId => 9
    case EthereumChallenge => 10
    case EthereumChallengeSent => 11
    case EthereumConfirmed => 12
    case InAppWallet => 13
    case ReferralCode => 14
    case ReferredAt => 15
    case ReferringUserId => 16
    case MigratedAt => 17
  }

  lemma ColumnInTable(c: Column)
    ensures c.Name() in TableColumns()
  {
    assert Names(AllColumns)[Place(c)] == c.Name();
  }

  /** The columns are all that an update may assign when it is not told which: every one but the key. */
  ghost predicate Infers(lib: Library, columns: Columns) {
    && !lib.isWhitelist(columns) && Distinct(lib.updateColumnSet(columns))
    && forall c :: c in lib.updateColumnSet(columns) <==> c in TableColumns() && c != "id"
  }

  /** Then the row with the object's id keeps id and created_at and gets all else from the object; others stay. */
  lemma WholeRowWrite<V>(lib: Library, columns: Columns, field: string -> nat, o: Fields<V>, t: BulkUpdate.Table<V>,
                         k: nat, c: string)
    requires BuildUpdate(lib, columns).Some? && BindsTo(lib, field) && HasFields(o, field, TableColumns())
    requires BulkUpdate.Rectangular(t, TableColumns()) && Infers(lib, columns)
    requires k in t && c in TableColumns()
    ensures Among(UpdateColumns(lib, columns), TableColumns())
    ensures var now := BulkUpdate.Overwritten(t, [o[field("id")]], Own(o, field, UpdateColumns(lib, columns)));
            && c in now[k]
            && now[k][c] == (if t[k]["id"] == o[field("id")] && c != "id" && c != "created_at" then o[field(c)]
                             else t[k][c])
  {
    WithoutMembers(lib.updateColumnSet(columns), "created_at");
  }

  /** The value of a column, whatever its type. */
  datatype Cell = Null | Text(text: string) | Flag(flag: bool) | Raw(raw: Bytes) | Stamp(stamp: Time)

  function OfText(v: Option<string>): Cell {
    if v.None? then Null else Text(v.value)
  }

  function OfTime(v: Option<Time>): Cell {
    if v.None? then Null else Stamp(v.value)
  }

  function CellOf(row: Row, c: Column): Cell {
    match c
    case Id => Text(row.id)
    case EmailAddress => OfText(row.account.emailAddress)
    case EmailConfirmed => Flag(row.account.emailConfirmed)
    case EmailConfirmationSentAt => OfTime(row.account.emailConfirmationSentAt)
    case EmailConfirmationKey => OfText(row.account.emailConfirmationKey)
    case CreatedAt => Stamp(row.createdAt)
    case CountryCode => OfText(row.account.countryCode)
    case EthereumAddress => if row.account.ethereumAddress.None? then Null else Raw(row.account.ethereumAddress.value)
    case AgreedTosAt => OfTime(row.account.agreedTosAt)
    case AuthProviderId => Text(row.account.authProviderId)
    case EthereumChallenge => OfText(row.account.ethereumChallenge)
    case EthereumChallengeSent => OfTime(row.account.ethereumChallengeSent)
    case EthereumConfirmed => Flag(row.account.ethereumConfirmed)
    case InAppWallet => Flag(row.account.inAppWallet)
    case ReferralCode => OfText(row.account.referralCode)
    case ReferredAt => OfTime(row.account.referredAt)
    case ReferringUserId => OfText(row.referringUserId)
    case MigratedAt => OfTime(row.migratedAt)
  }

  /** The raw row has the row's value in every column. */
  ghost predicate Represents(r: BulkUpdate.Row<Cell>, row: Row) {
    forall c: Column :: c.Name() in r && r[c.Name()] == CellOf(row, c)
  }

  /** The object's fields have the row's values. */
  ghost predicate HoldsRow(o: Fields<Cell>, field: string -> nat, row: Row) {
    forall c: Column :: field(c.Name()) in o && o[field(c.Name())] == CellOf(row, c)
  }

  lemma RepresentsOne(r: BulkUpdate.Row<Cell>, a: Row, b: Row)
    requires Represents(r, a) && Represents(r, b)
    ensures a == b
  {
    assert forall c: Column :: CellOf(a, c) == r[c.Name()] == CellOf(b, c);
    CellsDecide(a, b);
  }

  lemma CellsDecide(a: Row, b: Row)
    requires forall c: Column :: CellOf(a, c) == CellOf(b, c)
    ensures a == b
  {
    assert a.id == b.id && a.createdAt == b.createdAt by {
      assert CellOf(a, Id) == CellOf(b, Id) && CellOf(a, CreatedAt) == CellOf(b, CreatedAt);
    }
    assert a.referringUserId == b.referringUserId && a.migratedAt == b.migratedAt by {
      assert CellOf(a, ReferringUserId) == CellOf(b, ReferringUserId) && CellOf(a, MigratedAt) == CellOf(b, MigratedAt);
    }
    EmailCells(a, b);
    EthereumCells(a, b);
    OtherCells(a, b);
  }

  lemma EmailCells(a: Row, b: Row)
    requires forall c: Column :: CellOf(a, c) == CellOf(b, c)
    ensures a.account.emailAddress == b.account.emailAddress && a.account.emailConfirmed == b.account.emailConfirmed
    ensures a.account.emailConfirmationSentAt == b.account.emailConfirmationSentAt
    ensures a.account.emailConfirmationKey == b.account.emailConfirmationKey
  {
    assert CellOf(a, EmailAddress) == CellOf(b, EmailAddress) && CellOf(a, EmailConfirmed) == CellOf(b, EmailConfirmed);
    assert CellOf(a, EmailConfirmationSentAt) == CellOf(b, EmailConfirmationSentAt);
    assert CellOf(a, EmailConfirmationKey) == CellOf(b, EmailConfirmationKey);
  }

  lemma EthereumCells(a: Row, b: Row)
    requires forall c: Column :: CellOf(a, c) == CellOf(b, c)
    ensures a.account.ethereumAddress == b.account.ethereumAddress
    ensures a.account.ethereumChallenge == b.account.ethereumChallenge
    ensures a.account.ethereumChallengeSent == b.account.ethereumChallengeSent
    ensures a.account.ethereumConfirmed == b.account.ethereumConfirmed && a.account.inAppWallet == b.account.inAppWallet
  {
    assert CellOf(a, EthereumAddress) == CellOf(b, EthereumAddress);
    assert CellOf(a, EthereumChallenge) == CellOf(b, EthereumChallenge);
    assert CellOf(a, EthereumChallengeSent) == CellOf(b, EthereumChallengeSent);
    assert CellOf(a, EthereumConfirmed) == CellOf(b, EthereumConfirmed);
    assert CellOf(a, InAppWallet) == CellOf(b, InAppWallet);
  }

  lemma OtherCells(a: Row, b: Row)
    requires forall c: Column :: CellOf(a, c) == CellOf(b, c)
    ensures a.account.countryCode == b.account.countryCode && a.account.agreedTosAt == b.account.agreedTosAt
    ensures a.account.authProviderId == b.account.authProviderId && a.account.referralCode == b.account.referralCode
    ensures a.account.referredAt == b.account.referredAt
  {
    assert CellOf(a, CountryCode) == CellOf(b, CountryCode) && CellOf(a, AgreedTosAt) == CellOf(b, AgreedTosAt);
    assert CellOf(a, AuthProviderId) == CellOf(b, AuthProviderId) && CellOf(a, ReferralCode) == CellOf(b, ReferralCode);
    assert CellOf(a, ReferredAt) == CellOf(b, ReferredAt);
  }

  /** Keeping created_at of one row, and all else of another with the same id, column by column. */
  lemma KeptCells(now: Row, row: Row, c: Column)
    requires row.id == now.id
    ensures CellOf(row.(createdAt := now.createdAt), c) ==
            if c.Id? || c.CreatedAt? then CellOf(now, c) else CellOf(row, c)
  {
  }

  /** No other column has the name of the key or of created_at. */
  lemma KeyNames(c: Column)
    ensures c.Name() == "id" <==> c.Id?
    ensures c.Name() == "created_at" <==> c.CreatedAt?
  {
    NameHasMarks(c);
    NameHasMarks(Id);
    NameHasMarks(CreatedAt);
  }

  /** The columns are all but the key and created_at. */
  ghost predicate AllButKeys(wl: seq<string>) {
    Among(wl, TableColumns()) && forall c :: c in TableColumns() ==> (c in wl <==> c != "id" && c != "created_at")
  }

  lemma InferredList(lib: Library, columns: Columns)
    requires Infers(lib, columns)
    ensures AllButKeys(UpdateColumns(lib, columns))
  {
    WithoutMembers(lib.updateColumnSet(columns), "created_at");
  }

  /** A raw row after the object's values of the columns went to the row with its id. */
  ghost function UpdatedRow(r: BulkUpdate.Row<Cell>, o: Fields<Cell>, field: string -> nat, wl: seq<string>)
    : BulkUpdate.Row<Cell>
    requires r.Keys == TableColumns() && HasFields(o, field, TableColumns()) && Among(wl, TableColumns())
  {
    if r["id"] in [o[field("id")]] then r + Own(o, field, wl) else r
  }

  /** It represents the written row, or stays as it is when it has another id. */
  lemma RowMirrors(field: string -> nat, o: Fields<Cell>, r: BulkUpdate.Row<Cell>, now: Row, row: Row, wl: seq<string>)
    requires r.Keys == TableColumns() && HasFields(o, field, TableColumns()) && AllButKeys(wl)
    requires Represents(r, now) && HoldsRow(o, field, row)
    ensures Represents(UpdatedRow(r, o, field, wl), if now.id == row.id then row.(createdAt := now.createdAt) else now)
  {
    if now.id == row.id {
      SameKey(r, field, o, now, row);
      forall c: Column
        ensures var u := UpdatedRow(r, o, field, wl);
                c.Name() in u && u[c.Name()] == CellOf(row.(createdAt := now.createdAt), c)
      {
        ColumnInTable(c);
        KeyNames(c);
        KeptCells(now, row, c);
      }
    } else {
      OtherKey(r, field, o, now, row);
    }
  }

  /**
   So the whole-row write of Users.WriteBack is what the statement built for an inferred update does to the row with the
   object's id, by UpdateOverwrites.
   */
  lemma WriteBackIsUpdate(lib: Library, columns: Columns, field: string -> nat, o: Fields<Cell>,
                          t: BulkUpdate.Table<Cell>,
                          k: nat, now: Row, row: Row)
    requires BuildUpdate(lib, columns).Some? && BindsTo(lib, field) && HasFields(o, field, TableColumns())
    requires BulkUpdate.Rectangular(t, TableColumns()) && Infers(lib, columns) && k in t
    requires Represents(t[k], now) && row.id == now.id
    requires HoldsRow(o, field, row)
    ensures Among(UpdateColumns(lib, columns), TableColumns())
    ensures Represents(BulkUpdate.Overwritten(t, [o[field("id")]], Own(o, field, UpdateColumns(lib, columns)))[k],
                       row.(createdAt := now.createdAt))
  {
    InferredList(lib, columns);
    RowMirrors(field, o, t[k], now, row, UpdateColumns(lib, columns));
  }

  lemma OtherKey(r: BulkUpdate.Row<Cell>, field: string -> nat, o: Fields<Cell>, now: Row, row: Row)
    requires Represents(r, now) && row.id != now.id && HoldsRow(o, field, row)
    ensures "id" in r && field("id") in o && r["id"] != o[field("id")]
  {
    assert Id.Name() == "id";
    assert r[Id.Name()] == CellOf(now, Id) && o[field(Id.Name())] == CellOf(row, Id);
  }

  lemma SameKey(r: BulkUpdate.Row<Cell>, field: string -> nat, o: Fields<Cell>, now: Row, row: Row)
    requires Represents(r, now) && row.id == now.id
    requires HoldsRow(o, field, row)
    ensures "id" in r && field("id") in o && r["id"] == o[field("id")]
  {
    assert Id.Name() == "id";
    assert r[Id.Name()] == CellOf(now, Id) && o[field(Id.Name())] == CellOf(row, Id);
  }

  /** The raw table has the rows of T, each at a place of its own. */
  ghost predicate Mirrors(t: BulkUpdate.Table<Cell>, place: map<string, nat>, T: Table) {
    && place.Keys == T.Keys && t.Keys == place.Values
    && (forall a, b :: a in place && b in place && place[a] == place[b] ==> a == b)
    && (forall id :: id in T ==> Represents(t[place[id]], T[id]))
  }

  lemma MirrorsOne(t: BulkUpdate.Table<Cell>, place: map<string, nat>, S: Table, T: Table)
    requires Mirrors(t, place, S) && Mirrors(t, place, T)
    ensures S == T
  {
    forall id | id in S
      ensures S[id] == T[id]
    {
      RepresentsOne(t[place[id]], S[id], T[id]);
    }
  }

  /** Row by row: a raw table that has the rows of U in the places of T mirrors U and no other table. */
  lemma MirrorsExactly(t: BulkUpdate.Table<Cell>, now: BulkUpdate.Table<Cell>, place: map<string, nat>,
                       T: Table, U: Table, S: Table)
    requires Mirrors(t, place, T) && now.Keys == t.Keys && U.Keys == T.Keys
    requires forall id :: id in T ==> Represents(now[place[id]], U[id])
    ensures Mirrors(now, place, S) <==> S == U
  {
    assert Mirrors(now, place, U);
    if Mirrors(now, place, S) {
      MirrorsOne(now, place, S, U);
    }
  }

  /** The raw table after the object's values of the columns went to the row with its id. */
  ghost function Updated(t: BulkUpdate.Table<Cell>, o: Fields<Cell>, field: string -> nat, wl: seq<string>)
    : BulkUpdate.Table<Cell>
    requires BulkUpdate.Rectangular(t, TableColumns()) && HasFields(o, field, TableColumns())
    requires Among(wl, TableColumns())
    ensures Updated(t, o, field, wl).Keys == t.Keys
  {
    BulkUpdate.Overwritten(t, [o[field("id")]], Own(o, field, wl))
  }

  lemma UpdatedAt(t: BulkUpdate.Table<Cell>, o: Fields<Cell>, field: string -> nat, wl: seq<string>, k: nat)
    requires BulkUpdate.Rectangular(t, TableColumns()) && HasFields(o, field, TableColumns())
    requires Among(wl, TableColumns()) && k in t
    ensures Updated(t, o, field, wl)[k] == UpdatedRow(t[k], o, field, wl)
  {
  }

  lemma WrittenAt(T: Table, row: Row, id: string)
    requires Keyed(T) && id in T
    ensures id in Written(T, row)
    ensures Written(T, row)[id] == if T[id].id == row.id then row.(createdAt := T[id].createdAt) else T[id]
  {
  }

  /** The table that the statement makes, for one of its rows. */
  lemma WrittenOne(field: string -> nat, o: Fields<Cell>, t: BulkUpdate.Table<Cell>, k: nat, T: Table, row: Row,
                   wl: seq<string>, id: string)
    requires BulkUpdate.Rectangular(t, TableColumns()) && HasFields(o, field, TableColumns()) && AllButKeys(wl)
    requires Keyed(T) && id in T && k in t && Represents(t[k], T[id]) && HoldsRow(o, field, row)
    ensures Represents(Updated(t, o, field, wl)[k], Written(T, row)[id])
  {
    UpdatedAt(t, o, field, wl, k);
    RowMirrors(field, o, t[k], T[id], row, wl);
    WrittenAt(T, row, id);
  }

  lemma WrittenRows(field: string -> nat, o: Fields<Cell>, t: BulkUpdate.Table<Cell>, place: map<string, nat>, T: Table,
                    row: Row, wl: seq<string>)
    requires BulkUpdate.Rectangular(t, TableColumns()) && HasFields(o, field, TableColumns()) && AllButKeys(wl)
    requires Keyed(T) && Mirrors(t, place, T) && HoldsRow(o, field, row)
    ensures forall id :: id in T ==> Represents(Updated(t, o, field, wl)[place[id]], Written(T, row)[id])
  {
    forall id | id in T
      ensures Represents(Updated(t, o, field, wl)[place[id]], Written(T, row)[id])
    {
      WrittenOne(field, o, t, place[id], T, row, wl, id);
    }
  }

  /**
   For the whole table: whatever raw table mirrors T, the statement built for an inferred update, by UpdateOverwrites,
   leaves one that mirrors the write-back of the object's row to T, whether T has its id or not, and no other table.
   */
  lemma WriteBackIsExecuted(lib: Library, columns: Columns, field: string -> nat, o: Fields<Cell>,
                            t: BulkUpdate.Table<Cell>, place: map<string, nat>, T: Table, row: Row, S: Table)
    requires BuildUpdate(lib, columns).Some? && BindsTo(lib, field) && HasFields(o, field, TableColumns())
    requires BulkUpdate.Rectangular(t, TableColumns()) && Infers(lib, columns)
    requires Keyed(T) && Mirrors(t, place, T) && HoldsRow(o, field, row)
    ensures Among(UpdateColumns(lib, columns), TableColumns())
    ensures Mirrors(Updated(t, o, field, UpdateColumns(lib, columns)), place, S) <==> S == Written(T, row)
  {
    InferredList(lib, columns);
    var wl := UpdateColumns(lib, columns);
    WrittenRows(field, o, t, place, T, row, wl);
    MirrorsExactly(t, Updated(t, o, field, wl), place, T, Written(T, row), S);
  }

  /** What an upsert does on a conflict. */
  datatype OnConflict = Ignore | SetGiven(list: string) | SetColumns

  function OnConflictOf(u: FullUpsert): OnConflict {
    if !u.call.updateOnConflict then Ignore
    else if Effective(u.opts).updateSet != "" then SetGiven(Effective(u.opts).updateSet)
    else SetColumns
  }

  /** How the statement says so. */
  function ActionWords(quote: string -> string, update: seq<string>, c: OnConflict): string {
    match c
    case Ignore => "DO NOTHING"
    case SetGiven(list) => "DO UPDATE SET " + list
    case SetColumns => "DO UPDATE SET " + SetJoin(quote, update)
  }

  /**
   The row after an upsert: inserted, or the one in conflict. That stays as it is if conflicts are ignored, and else has
   the update columns taken from EXCLUDED, or is whatever an update list given as an option makes of it (bySet).
   */
  function Upserted<V>(u: FullUpsert, existing: Option<BulkUpdate.Row<V>>, excluded: BulkUpdate.Row<V>,
                       update: seq<string>, bySet: BulkUpdate.Row<V>): BulkUpdate.Row<V>
    requires Among(update, excluded.Keys)
  {
    if existing.None? then excluded
    else
      match OnConflictOf(u)
      case Ignore => existing.value
      case SetGiven(_) => bySet
      case SetColumns => existing.value + map c | c in update :: excluded[c]
  }

  /** The object after it: nothing is returned of a conflict that is ignored, which Upsert takes for success. */
  function ObjectAfter<V>(u: FullUpsert, existing: Option<BulkUpdate.Row<V>>, o: Fields<V>, mapping: seq<nat>,
                          row: BulkUpdate.Row<V>, ret: seq<string>): Fields<V>
    requires |ret| == |mapping| && forall i :: 0 <= i < |ret| ==> ret[i] in row
  {
    if existing.Some? && OnConflictOf(u).Ignore? then o else Synced(o, mapping, row, ret)
  }

  lemma ReturnsRest(insert: seq<string>, update: seq<string>)
    ensures Among(UpsertReturns(insert, update), TableColumns())
    ensures forall c :: c in TableColumns() ==> (c !in UpsertReturns(insert, update) <==> c in insert && c in update)
  {
    NotInBothMembers(Names(AllColumns), insert, update);
  }

  /** A synced object has the row's values exactly if it had those that are not returned. */
  lemma SyncedExactly<V>(o: Fields<V>, field: string -> nat, row: BulkUpdate.Row<V>, ret: seq<string>)
    requires HasFields(o, field, row.Keys) && Among(ret, row.Keys)
    ensures Agree(Synced(o, Numbers(field, ret), row, ret), field, row, row.Keys) <==>
            forall c :: c in row.Keys && c !in ret ==> o[field(c)] == row[c]
  {
    forall c | c in row.Keys
      ensures var o' := Synced(o, Numbers(field, ret), row, ret);
              field(c) in o' && o'[field(c)] == if c in ret then row[c] else o[field(c)]
    {
      Scanned(o, field, row.Keys, ret, row, c);
    }
  }

  /** The rows that an upsert may meet, and what an update list given as an option makes of them. */
  ghost predicate Fits<V>(existing: Option<BulkUpdate.Row<V>>, bySet: BulkUpdate.Row<V>) {
    bySet.Keys == TableColumns() && (existing.Some? ==> existing.value.Keys == TableColumns())
  }

  /**
   When an upsert leaves object and row the same: always if it inserts, or updates by its columns; on a conflict that is
   ignored if they were the same before; with an update list given as an option if that keeps to the object's values in
   the columns that are both inserted and updated, which are not returned.
   */
  ghost predicate Reconciled<V>(u: FullUpsert, field: string -> nat, o: Fields<V>, existing: Option<BulkUpdate.Row<V>>,
                                insert: seq<string>, update: seq<string>, bySet: BulkUpdate.Row<V>)
    requires HasFields(o, field, TableColumns()) && Fits(existing, bySet)
  {
    || existing.None?
    || (!u.call.updateOnConflict && forall c :: c in TableColumns() ==> o[field(c)] == existing.value[c])
    || (u.call.updateOnConflict && Effective(u.opts).updateSet == "")
    || (u.call.updateOnConflict
        && forall c :: c in TableColumns() && c in insert && c in update ==> o[field(c)] == bySet[c])
  }

  /** What an upsert does, with its bindings: object and row are the same afterwards exactly if they are reconciled. */
  lemma UpsertSynchronises<V>(lib: Library, u: FullUpsert, field: string -> nat, o: Fields<V>,
                              defaults: BulkUpdate.Row<V>, existing: Option<BulkUpdate.Row<V>>,
                              bySet: BulkUpdate.Row<V>, insert: seq<string>, update: seq<string>)
    requires BuildUpsert(lib, u).Some? && BindsTo(lib, field) && HasFields(o, field, TableColumns())
    requires insert == lib.insertColumnSet(u.call.insert, u.call.nzDefaults).0
    requires update == lib.updateColumnSet(u.call.update)
    requires Distinct(insert) && Among(insert, TableColumns()) && Among(update, TableColumns())
    requires defaults.Keys == TableColumns() && Fits(existing, bySet)
    ensures var st, ret := BuildUpsert(lib, u).value, UpsertReturns(insert, update);
            && st.query == UpsertStatement(lib, u.call, u.opts)
            && st.valueMapping == Numbers(field, insert) && st.retMapping == Numbers(field, ret)
            && Among(ret, TableColumns())
            && Inserted(defaults, insert, ValuesFrom(o, Numbers(field, insert))) == defaults + Own(o, field, insert)
    ensures var row := Upserted(u, existing, defaults + Own(o, field, insert), update, bySet);
            var ret := UpsertReturns(insert, update);
            && row.Keys == TableColumns()
            && (Agree(ObjectAfter(u, existing, o, Numbers(field, ret), row, ret), field, row, TableColumns())
                <==> Reconciled(u, field, o, existing, insert, update, bySet))
    ensures var conflict := ConflictColumns(u.call, update);
            BuildUpsert(lib, u).value.query ==
            ("INSERT INTO " + UsersTable + " " + ColumnsText(lib.quote, insert) + " ON CONFLICT ")
            + (TargetText(lib.quote, conflict, Effective(u.opts)) + " "
               + ActionWords(lib.quote, update, OnConflictOf(u)))
            + ReturningText(lib.quote, UpsertReturns(insert, update))
    ensures lib.quote == Quoted && Effective(u.opts) == NoOptions && RealColumns(u.call.conflict) ==>
              Tokens(BuildUpsert(lib, u).value.query) ==
              TableIdents + Idents(insert) + Params(|insert|) + Idents(AskedConflict(u.call))
              + (if u.call.updateOnConflict then Doubled(update) else []) + Idents(UpsertReturns(insert, update))
  {
    UpsertBinds(lib, u, field, insert, update);
    UpsertWords(lib, u, insert, update);
    UpsertTokens(lib, u, insert, update);
    InsertedRow(defaults, o, field, insert);
    UpsertAgrees(u, field, o, defaults, existing, bySet, insert, update);
  }

  /** The statement, with the action to the letter. */
  lemma UpsertWords(lib: Library, u: FullUpsert, insert: seq<string>, update: seq<string>)
    requires BuildUpsert(lib, u).Some? && Among(update, TableColumns())
    requires insert == lib.insertColumnSet(u.call.insert, u.call.nzDefaults).0
    requires update == lib.updateColumnSet(u.call.update)
    ensures var conflict := ConflictColumns(u.call, update);
            BuildUpsert(lib, u).value.query ==
            ("INSERT INTO " + UsersTable + " " + ColumnsText(lib.quote, insert) + " ON CONFLICT ")
            + (TargetText(lib.quote, conflict, Effective(u.opts)) + " "
               + ActionWords(lib.quote, update, OnConflictOf(u)))
            + ReturningText(lib.quote, UpsertReturns(insert, update))
  {
    UpsertTextParts(lib.quote, UsersTable, u.call.updateOnConflict, UpsertReturns(insert, update), update,
                    ConflictColumns(u.call, update), insert, u.opts);
    ActionExactly(lib.quote, u.call.updateOnConflict, update, Effective(u.opts));
    AmongReal(update);
    ColumnsNamable(update);
  }

  /** The columns in conflict: those the caller gives, or else the key, if conflicts are to be resolved. */
  function AskedConflict(call: UpsertCall): seq<string> {
    if call.conflict != [] then call.conflict else if call.updateOnConflict then ["id"] else []
  }

  lemma ConflictIsAsked(lib: Library, u: FullUpsert, update: seq<string>)
    requires BuildUpsert(lib, u).Some? && update == lib.updateColumnSet(u.call.update)
    ensures ConflictColumns(u.call, update) == AskedConflict(u.call)
  {
  }

  lemma AmongReal(names: seq<string>)
    requires Among(names, TableColumns())
    ensures RealColumns(names)
  {
    KnownAreReal(names);
  }

  /** Without options, the statement reads as its names and placeholders, each in its place. */
  lemma UpsertTokens(lib: Library, u: FullUpsert, insert: seq<string>, update: seq<string>)
    requires BuildUpsert(lib, u).Some? && Among(insert, TableColumns()) && Among(update, TableColumns())
    requires insert == lib.insertColumnSet(u.call.insert, u.call.nzDefaults).0
    requires update == lib.updateColumnSet(u.call.update)
    ensures lib.quote == Quoted && Effective(u.opts) == NoOptions && RealColumns(u.call.conflict) ==>
              Tokens(BuildUpsert(lib, u).value.query) ==
              TableIdents + Idents(insert) + Params(|insert|) + Idents(AskedConflict(u.call))
              + (if u.call.updateOnConflict then Doubled(update) else []) + Idents(UpsertReturns(insert, update))
  {
    if lib.quote == Quoted && Effective(u.opts) == NoOptions && RealColumns(u.call.conflict) {
      var ret, conflict := UpsertReturns(insert, update), ConflictColumns(u.call, update);
      ReturnsRest(insert, update);
      AmongReal(insert);
      AmongReal(update);
      AmongReal(ret);
      ColumnsNamable(insert);
      ColumnsNamable(update);
      ColumnsNamable(ret);
      ColumnsNamable(u.call.conflict);
      ConflictIsAsked(lib, u, update);
      UpsertReads(u.call.updateOnConflict, ret, update, conflict, insert, u.opts);
    }
  }

  lemma UpsertBinds(lib: Library, u: FullUpsert, field: string -> nat, insert: seq<string>, update: seq<string>)
    requires BuildUpsert(lib, u).Some? && BindsTo(lib, field)
    requires insert == lib.insertColumnSet(u.call.insert, u.call.nzDefaults).0
    requires update == lib.updateColumnSet(u.call.update)
    ensures var st := BuildUpsert(lib, u).value;
            && st.query == UpsertStatement(lib, u.call, u.opts)
            && st.valueMapping == Numbers(field, insert)
            && st.retMapping == Numbers(field, UpsertReturns(insert, update))
            && (u.call.updateOnConflict ==> update != [])
  {
    assert lib.bindMapping(insert).Some?;
  }

  lemma UpsertAgrees<V>(u: FullUpsert, field: string -> nat, o: Fields<V>, defaults: BulkUpdate.Row<V>,
                        existing: Option<BulkUpdate.Row<V>>, bySet: BulkUpdate.Row<V>,
                        insert: seq<string>, update: seq<string>)
    requires HasFields(o, field, TableColumns()) && Among(insert, TableColumns()) && Among(update, TableColumns())
    requires defaults.Keys == TableColumns() && Fits(existing, bySet)
    ensures Among(UpsertReturns(insert, update), TableColumns())
    ensures var row := Upserted(u, existing, defaults + Own(o, field, insert), update, bySet);
            var ret := UpsertReturns(insert, update);
            && row.Keys == TableColumns()
            && (Agree(ObjectAfter(u, existing, o, Numbers(field, ret), row, ret), field, row, TableColumns())
                <==> Reconciled(u, field, o, existing, insert, update, bySet))
  {
    ReturnsRest(insert, update);
    var row := Upserted(u, existing, defaults + Own(o, field, insert), update, bySet);
    assert row.Keys == TableColumns();
    if existing.Some? && !u.call.updateOnConflict {
      assert row == existing.value;
    } else {
      SyncedExactly(o, field, row, UpsertReturns(insert, update));
      UnreturnedExactly(u, field, o, defaults, existing, bySet, insert, update);
    }
  }

  /** Unless a conflict is ignored, what is not returned has the object's value exactly if they are reconciled. */
  lemma UnreturnedExactly<V>(u: FullUpsert, field: string -> nat, o: Fields<V>, defaults: BulkUpdate.Row<V>,
                             existing: Option<BulkUpdate.Row<V>>, bySet: BulkUpdate.Row<V>,
                             insert: seq<string>, update: seq<string>)
    requires HasFields(o, field, TableColumns()) && Among(insert, TableColumns()) && Among(update, TableColumns())
    requires defaults.Keys == TableColumns() && Fits(existing, bySet)
    requires existing.None? || u.call.updateOnConflict
    ensures var row := Upserted(u, existing, defaults + Own(o, field, insert), update, bySet);
            && row.Keys == TableColumns()
            && ((forall c :: c in TableColumns() && c in insert && c in update ==> o[field(c)] == row[c])
                <==> Reconciled(u, field, o, existing, insert, update, bySet))
  {
    var excluded := defaults + Own(o, field, insert);
    InsertedValues(field, o, defaults, insert);
    if existing.None? || OnConflictOf(u).SetGiven? {
      assert Upserted(u, existing, excluded, update, bySet) == if existing.None? then excluded else bySet;
    } else {
      ResolvedValues(existing.value, excluded, update);
    }
  }

  lemma InsertedValues<V>(field: string -> nat, o: Fields<V>, defaults: BulkUpdate.Row<V>, insert: seq<string>)
    requires HasFields(o, field, TableColumns()) && Among(insert, TableColumns()) && defaults.Keys == TableColumns()
    ensures (defaults + Own(o, field, insert)).Keys == TableColumns()
    ensures forall c :: c in TableColumns() && c in insert ==> (defaults + Own(o, field, insert))[c] == o[field(c)]
  {
  }

  lemma ResolvedValues<V>(existing: BulkUpdate.Row<V>, excluded: BulkUpdate.Row<V>, update: seq<string>)
    requires existing.Keys == excluded.Keys == TableColumns() && Among(update, TableColumns())
    ensures var row := existing + map c | c in update :: excluded[c];
            row.Keys == TableColumns() && forall c :: c in TableColumns() && c in update ==> row[c] == excluded[c]
  {
  }

  /** The object's own values, but for one column: a row that it may be in conflict with, having its id. */
  ghost function AllBut<V>(o: Fields<V>, field: string -> nat, column: string, other: V): BulkUpdate.Row<V>
    requires HasFields(o, field, TableColumns())
  {
    map c | c in TableColumns() :: if c == column then other else o[field(c)]
  }

  /** The failing input: conflicts are ignored, and the row with the object's id differs from it in some column. */
  lemma IgnoredConflictDiffers<V>(u: FullUpsert, field: string -> nat, o: Fields<V>, defaults: BulkUpdate.Row<V>,
                                  insert: seq<string>, update: seq<string>, column: string, other: V)
    requires HasFields(o, field, TableColumns()) && Among(insert, TableColumns()) && Among(update, TableColumns())
    requires defaults.Keys == TableColumns() && !u.call.updateOnConflict
    requires column in TableColumns() && other != o[field(column)]
    ensures Among(UpsertReturns(insert, update), TableColumns())
    ensures var existing := Some(AllBut(o, field, column, other));
            var row := Upserted(u, existing, defaults + Own(o, field, insert), update, defaults);
            var ret := UpsertReturns(insert, update);
            && row.Keys == TableColumns()
            && !Agree(ObjectAfter(u, existing, o, Numbers(field, ret), row, ret), field, row, TableColumns())
  {
    var existing := Some(AllBut(o, field, column, other));
    UpsertAgrees(u, field, o, defaults, existing, defaults, insert, update);
    assert existing.value[column] == other;
  }

  /** Without an update list given as an option, the object agrees with the row on every conflict over its id. */
  ghost predicate AlwaysSynchronises<V(!new)>(u: FullUpsert, field: string -> nat, o: Fields<V>,
                                              defaults: BulkUpdate.Row<V>, insert: seq<string>, update: seq<string>)
    requires HasFields(o, field, TableColumns()) && Among(insert, TableColumns()) && Among(update, TableColumns())
    requires defaults.Keys == TableColumns() && Among(UpsertReturns(insert, update), TableColumns())
  {
    forall existing: Option<BulkUpdate.Row<V>> :: SharesId(field, o, existing) ==>
      var row := Upserted(u, existing, defaults + Own(o, field, insert), update, defaults);
      var ret := UpsertReturns(insert, update);
      row.Keys == TableColumns() &&
      Agree(ObjectAfter(u, existing, o, Numbers(field, ret), row, ret), field, row, TableColumns())
  }

  ghost predicate SharesId<V>(field: string -> nat, o: Fields<V>, existing: Option<BulkUpdate.Row<V>>)
    requires HasFields(o, field, TableColumns())
  {
    existing.Some? ==>
      existing.value.Keys == TableColumns() && existing.value["id"] == o[field("id")]
  }

  /** An upsert whatever it meets leaves object and row the same exactly if it updates on conflict. */
  lemma SynchronisesExactly<V(!new)>(u: FullUpsert, field: string -> nat, o: Fields<V>, defaults: BulkUpdate.Row<V>,
                                     insert: seq<string>, update: seq<string>, x: V, y: V)
    requires HasFields(o, field, TableColumns()) && Among(insert, TableColumns()) && Among(update, TableColumns())
    requires defaults.Keys == TableColumns() && Effective(u.opts).updateSet == "" && x != y
    ensures Among(UpsertReturns(insert, update), TableColumns())
    ensures AlwaysSynchronises(u, field, o, defaults, insert, update) <==> u.call.updateOnConflict
  {
    ReturnsRest(insert, update);
    if u.call.updateOnConflict {
      forall existing: Option<BulkUpdate.Row<V>> | SharesId(field, o, existing)
        ensures var row := Upserted(u, existing, defaults + Own(o, field, insert), update, defaults);
                var ret := UpsertReturns(insert, update);
                row.Keys == TableColumns() &&
                Agree(ObjectAfter(u, existing, o, Numbers(field, ret), row, ret), field, row, TableColumns())
      {
        UpsertAgrees(u, field, o, defaults, existing, defaults, insert, update);
      }
    } else {
      ColumnInTable(EmailAddress);
      var column := EmailAddress.Name();
      var other := if o[field(column)] == x then y else x;
      KeyNames(EmailAddress);
      IgnoredConflictDiffers(u, field, o, defaults, insert, update, column, other);
      assert SharesId(field, o, Some(AllBut(o, field, column, other)));
    }
  }

  /* That what the lemmas above ask for can be met. */

  lemma {:induction false} PlaceFinds(names: seq<string>, name: string)
    requires name in names
    ensures PlaceIn(names, name) < |names| && names[PlaceIn(names, name)] == name
  {
    if names[0] != name {
      PlaceFinds(names[1..], name);
    }
  }

  /** The fields of a library that numbers columns by their places. */
  function PlaceOf(name: string): nat {
    PlaceIn(Names(AllColumns), name)
  }

  /** An object with the row's values in those fields. */
  ghost function FieldsOf(row: Row): Fields<Cell> {
    map i | 0 <= i < |AllColumns| :: CellOf(row, AllColumns[i])
  }

  ghost function RawOf(row: Row): BulkUpdate.Row<Cell> {
    map name | name in TableColumns() && PlaceOf(name) < |AllColumns| :: CellOf(row, AllColumns[PlaceOf(name)])
  }

  /** Different columns have different places. */
  lemma PlaceOfName(c: Column)
    ensures PlaceOf(c.Name()) < |AllColumns| && AllColumns[PlaceOf(c.Name())] == c
  {
    ColumnInTable(c);
    PlaceFinds(Names(AllColumns), c.Name());
    SameName(AllColumns[PlaceOf(c.Name())], c);
  }

  lemma SameName(c: Column, d: Column)
    requires c.Name() == d.Name()
    ensures c == d
  {
    NameHasMarks(c);
    NameHasMarks(d);
  }

  /** Every row has an object and a raw row, whatever its values are. */
  lemma RowsAreHeld(row: Row)
    ensures HasFields(FieldsOf(row), PlaceOf, TableColumns()) && HoldsRow(FieldsOf(row), PlaceOf, row)
    ensures RawOf(row).Keys == TableColumns() && Represents(RawOf(row), row)
  {
    forall name | name in TableColumns()
      ensures PlaceOf(name) < |AllColumns| && Names(AllColumns)[PlaceOf(name)] == name
    {
      PlaceFinds(Names(AllColumns), name);
    }
    forall c: Column
      ensures c.Name() in TableColumns() && PlaceOf(c.Name()) < |AllColumns| && AllColumns[PlaceOf(c.Name())] == c
    {
      ColumnInTable(c);
      PlaceOfName(c);
    }
  }

  /** The plain library gives each column the number of its place. */
  lemma PlainLibraryBinds()
    ensures BindsTo(PlainLibrary(), PlaceOf)
  {
    forall names | PlainLibrary().bindMapping(names).Some?
      ensures PlainLibrary().bindMapping(names).value == Numbers(PlaceOf, names)
    {
      PlainNumbers(names);
    }
  }

  lemma PlainNumbers(names: seq<string>)
    requires BindPlainly(names).Some?
    ensures BindPlainly(names).value == Numbers(PlaceOf, names)
  {
    var plain, numbers := BindPlainly(names).value, Numbers(PlaceOf, names);
    assert |plain| == |numbers| == |names|;
    forall i | 0 <= i < |names|
      ensures plain[i] == numbers[i]
    {
      assert numbers[i] == PlaceOf(names[i]);
    }
  }

  /** Its upserts of an id, with any options, are among those that UpsertSynchronises is about. */
  lemma PlainUpsertsQualify(updateOnConflict: bool, opts: seq<UpsertOption>)
    ensures var u := FullUpsert(UpsertCall(updateOnConflict, [], Columns(2, ["id"]), Columns(2, ["id"]), []), opts);
            BuildUpsert(PlainLibrary(), u).Some? && Distinct(["id"]) && Among(["id"], TableColumns())
  {
    PlainUpsertBuilds(UpsertCall(updateOnConflict, [], Columns(2, ["id"]), Columns(2, ["id"]), []));
  }
}

/** UserSlice.UpdateAll: one statement that overwrites columns of many rows, its parameters given by position. */
module BulkUpdate {
  import opened Wrappers

  type Row<V> = map<string, V>
  type Table<V> = map<nat, Row<V>>

  /** A column and the number, counted from 1, of the parameter it is set to or compared with. */
  datatype Bound = Bound(column: string, param: nat)

  /** UPDATE of the columns in sets, on the rows that meet all of some clause. */
  datatype Update = Update(sets: seq<Bound>, clauses: seq<seq<Bound>>)

  function SetParamNames(start: nat, columns: seq<string>): seq<Bound> {
    seq(|columns|, i requires 0 <= i < |columns| => Bound(columns[i], start + i))
  }

  function WhereClause(start: nat, columns: seq<string>): seq<Bound> {
    SetParamNames(start, columns)
  }

  function WhereClauseRepeated(start: nat, columns: seq<string>, count: nat): seq<seq<Bound>> {
    seq(count, i requires 0 <= i < count => WhereClause(start + i * |columns|, columns))
  }

  /** Every bound column exists and every parameter was passed. */
  predicate Binds<V>(bounds: seq<Bound>, columns: set<string>, args: seq<V>) {
    forall i :: 0 <= i < |bounds| ==> bounds[i].column in columns && 1 <= bounds[i].param <= |args|
  }

  /** No column is set twice, and everything named is there. */
  predicate WellFormed<V>(stmt: Update, columns: set<string>, args: seq<V>) {
    && (forall i, j :: 0 <= i < j < |stmt.sets| ==> stmt.sets[i].column != stmt.sets[j].column)
    && Binds(stmt.sets, columns, args)
    && forall i :: 0 <= i < |stmt.clauses| ==> Binds(stmt.clauses[i], columns, args)
  }

  predicate Meets<V(==)>(row: Row<V>, clause: seq<Bound>, args: seq<V>)
    requires Binds(clause, row.Keys, args)
  {
    forall i :: 0 <= i < |clause| ==> row[clause[i].column] == args[clause[i].param - 1]
  }

  predicate Matches<V(==)>(row: Row<V>, stmt: Update, args: seq<V>)
    requires WellFormed(stmt, row.Keys, args)
  {
    exists i :: 0 <= i < |stmt.clauses| && Meets(row, stmt.clauses[i], args)
  }

  /** The row with its columns set one after the other. */
  function Assign<V>(row: Row<V>, sets: seq<Bound>, args: seq<V>): Row<V>
    requires Binds(sets, row.Keys, args)
  {
    if sets == [] then row else
      var last := sets[|sets| - 1];
      Assign(row, sets[..|sets| - 1], args)[last.column := args[last.param - 1]]
  }

  /** Every row has exactly the given columns. */
  ghost predicate Rectangular<V>(t: Table<V>, columns: set<string>) {
    forall k :: k in t ==> t[k].Keys == columns
  }

  /** What the database makes of a statement and its parameters. */
  function Executed<V(==)>(t: Table<V>, columns: set<string>, stmt: Update, args: seq<V>): Table<V>
    requires Rectangular(t, columns) && WellFormed(stmt, columns, args)
  {
    map k | k in t :: if Matches(t[k], stmt, args) then Assign(t[k], stmt.sets, args) else t[k]
  }

  function Affected<V(==)>(t: Table<V>, columns: set<string>, stmt: Update, args: seq<V>): set<nat>
    requires Rectangular(t, columns) && WellFormed(stmt, columns, args)
  {
    set k | k in t && Matches(t[k], stmt, args)
  }

  /** What UpdateAll means: the columns are overwritten on the rows with the given ids. */
  ghost function Overwritten<V>(t: Table<V>, ids: seq<V>, cols: map<string, V>): Table<V>
    requires forall k :: k in t ==> "id" in t[k]
  {
    map k | k in t :: if t[k]["id"] in ids then t[k] + cols else t[k]
  }

  ghost function WithIds<V>(t: Table<V>, ids: seq<V>): set<nat>
    requires forall k :: k in t ==> "id" in t[k]
  {
    set k | k in t && t[k]["id"] in ids
  }

  /** The statement that UpdateAll writes for the given order of the columns. */
  function UpdateAllStatement(names: seq<string>, ln: nat): Update {
    Update(SetParamNames(1, names), WhereClauseRepeated(|names| + 1, ["id"], ln))
  }

  /** names is an order of the columns, and values has their values in it. */
  ghost predicate Orders<V>(cols: map<string, V>, names: seq<string>, values: seq<V>) {
    && |names| == |values|
    && (forall i, j :: 0 <= i < j < |names| ==> names[i] != names[j])
    && (forall i :: 0 <= i < |names| ==> names[i] in cols && cols[names[i]] == values[i])
    && (forall c :: c in cols ==> c in names)
  }

  lemma OrdersFront<V>(cols: map<string, V>, names: seq<string>, values: seq<V>)
    requires Orders(cols, names, values) && names != []
    ensures var n := |names| - 1; Orders(cols - {names[n]}, names[..n], values[..n])
  {
    var n := |names| - 1;
    forall c | c in cols && c != names[n]
      ensures c in names[..n]
    {
      assert c in names;
    }
  }

  lemma OverwriteLast<V>(row: Row<V>, cols: map<string, V>, c: string)
    requires c in cols
    ensures (row + (cols - {c}))[c := cols[c]] == row + cols
  {
  }

  lemma ParamsBind<V>(names: seq<string>, columns: set<string>, args: seq<V>)
    requires |names| <= |args| && forall i :: 0 <= i < |names| ==> names[i] in columns
    ensures Binds(SetParamNames(1, names), columns, args)
  {
  }

  /** Setting the columns by position comes to overwriting them, whatever the order. */
  lemma {:induction false} AssignOverwrites<V>(row: Row<V>, cols: map<string, V>, names: seq<string>, values: seq<V>,
                                               args: seq<V>)
    requires Orders(cols, names, values) && |values| <= |args| && args[..|values|] == values
    requires cols.Keys <= row.Keys && Binds(SetParamNames(1, names), row.Keys, args)
    ensures Assign(row, SetParamNames(1, names), args) == row + cols
    decreases |names|
  {
    if names == [] {
      assert cols == map[];
    } else {
      var n := |names| - 1;
      OrdersFront(cols, names, values);
      ParamsBind(names[..n], row.Keys, args);
      AssignOverwrites(row, cols - {names[n]}, names[..n], values[..n], args);
      assert SetParamNames(1, names)[..n] == SetParamNames(1, names[..n]);
      OverwriteLast(row, cols, names[n]);
    }
  }

  /** The repeated clause holds of exactly the rows whose id is among the ids. */
  lemma MatchesIds<V>(row: Row<V>, names: seq<string>, values: seq<V>, ids: seq<V>)
    requires "id" in row && |names| == |values|
    requires WellFormed(UpdateAllStatement(names, |ids|), row.Keys, values + ids)
    ensures Matches(row, UpdateAllStatement(names, |ids|), values + ids) <==> row["id"] in ids
  {
    var stmt, args := UpdateAllStatement(names, |ids|), values + ids;
    forall i | 0 <= i < |ids|
      ensures Meets(row, stmt.clauses[i], args) <==> row["id"] == ids[i]
    {
      var clause := stmt.clauses[i];
      assert clause == [Bound("id", |names| + 1 + i)];
      assert clause[0].column == "id" && args[clause[0].param - 1] == ids[i];
    }
  }

  lemma WellFormedExactly<V>(columns: set<string>, cols: map<string, V>, names: seq<string>, values: seq<V>,
                             ids: seq<V>)
    requires Orders(cols, names, values) && "id" in columns
    ensures WellFormed(UpdateAllStatement(names, |ids|), columns, values + ids) <==> cols.Keys <= columns
  {
    var stmt, args := UpdateAllStatement(names, |ids|), values + ids;
    forall i | 0 <= i < |ids|
      ensures Binds(stmt.clauses[i], columns, args)
    {
      assert stmt.clauses[i] == [Bound("id", |names| + 1 + i)];
    }
    if WellFormed(stmt, columns, args) {
      forall c | c in cols
        ensures c in columns
      {
        var i :| 0 <= i < |names| && names[i] == c;
        assert stmt.sets[i].column == c;
      }
    }
  }

  /** It is enough that the statement means the right thing for each row. */
  lemma ExecutedRowwise<V>(t: Table<V>, columns: set<string>, cols: map<string, V>, stmt: Update, args: seq<V>,
                           ids: seq<V>)
    requires Rectangular(t, columns) && "id" in columns && WellFormed(stmt, columns, args)
    requires forall k :: k in t ==> (Matches(t[k], stmt, args) <==> t[k]["id"] in ids)
    requires forall k :: k in t ==> Assign(t[k], stmt.sets, args) == t[k] + cols
    ensures Executed(t, columns, stmt, args) == Overwritten(t, ids, cols)
  {
  }

  lemma AffectedRowwise<V>(t: Table<V>, columns: set<string>, stmt: Update, args: seq<V>, ids: seq<V>)
    requires Rectangular(t, columns) && "id" in columns && WellFormed(stmt, columns, args)
    requires forall k :: k in t ==> (Matches(t[k], stmt, args) <==> t[k]["id"] in ids)
    ensures Affected(t, columns, stmt, args) == WithIds(t, ids)
  {
  }

  /** For every order of the columns, the statement means what UpdateAll promises. */
  lemma StatementOverwrites<V>(t: Table<V>, columns: set<string>, cols: map<string, V>, names: seq<string>,
                               values: seq<V>, ids: seq<V>)
    requires Rectangular(t, columns) && "id" in columns && cols.Keys <= columns
    requires Orders(cols, names, values)
    ensures var stmt := UpdateAllStatement(names, |ids|);
            && WellFormed(stmt, columns, values + ids)
            && Executed(t, columns, stmt, values + ids) == Overwritten(t, ids, cols)
            && Affected(t, columns, stmt, values + ids) == WithIds(t, ids)
  {
    WellFormedExactly(columns, cols, names, values, ids);
    var stmt, args := UpdateAllStatement(names, |ids|), values + ids;
    forall k | k in t
      ensures Matches(t[k], stmt, args) <==> t[k]["id"] in ids
    {
      MatchesIds(t[k], names, values, ids);
    }
    forall k | k in t
      ensures Assign(t[k], stmt.sets, args) == t[k] + cols
    {
      AssignOverwrites(t[k], cols, names, values, args);
    }
    ExecutedRowwise(t, columns, cols, stmt, args, ids);
    AffectedRowwise(t, columns, stmt, args, ids);
  }

  /** A table with its columns and its constraints. */
  class Store<V(==)> {
    const columns: set<string>
    const constraints: Table<V> -> bool
    var table: Table<V>

    ghost predicate Valid()
      reads this
    {
      Rectangular(table, columns) && "id" in columns && constraints(table)
    }

    constructor (columns: set<string>, constraints: Table<V> -> bool, table: Table<V>)
      requires Rectangular(table, columns) && "id" in columns && constraints(table)
      ensures Valid() && this.columns == columns && this.constraints == constraints && this.table == table
    {
      this.columns, this.constraints, this.table := columns, constraints, table;
    }

    /** Runs a statement; it fails exactly if the connection does, or it is not well formed, or breaks a constraint. */
    method Exec(up: bool, stmt: Update, args: seq<V>) returns (r: Result<nat>)
      requires Valid()
      modifies this
      ensures Valid()
      ensures r.Ok? <==>
              up && WellFormed(stmt, columns, args) && constraints(Executed(old(table), columns, stmt, args))
      ensures r.Ok? ==> table == Executed(old(table), columns, stmt, args)
      ensures r.Ok? ==> r.value == |Affected(old(table), columns, stmt, args)|
      ensures r.Err? ==> table == old(table)
    {
      if !up || !WellFormed(stmt, columns, args) || !constraints(Executed(table, columns, stmt, args)) {
        return Err;
      }
      r := Ok(|Affected(table, columns, stmt, args)|);
      AssignKeepsColumns(table, columns, stmt, args);
      table := Executed(table, columns, stmt, args);
    }
  }

  lemma {:induction false} AssignedColumns<V>(row: Row<V>, sets: seq<Bound>, args: seq<V>)
    requires Binds(sets, row.Keys, args)
    ensures Assign(row, sets, args).Keys == row.Keys
    decreases |sets|
  {
    if sets != [] {
      AssignedColumns(row, sets[..|sets| - 1], args);
    }
  }

  lemma AssignKeepsColumns<V>(t: Table<V>, columns: set<string>, stmt: Update, args: seq<V>)
    requires Rectangular(t, columns) && WellFormed(stmt, columns, args)
    ensures Rectangular(Executed(t, columns, stmt, args), columns)
  {
    forall k | k in t
      ensures Assign(t[k], stmt.sets, args).Keys == columns
    {
      AssignedColumns(t[k], stmt.sets, args);
    }
  }

  /** The columns and their values, in the order that ranging over the map happens to give. */
  method Range<V>(cols: map<string, V>) returns (names: seq<string>, values: seq<V>)
    ensures Orders(cols, names, values)
  {
    names, values := [], [];
    var left := cols.Keys;
    while left != {}
      invariant left <= cols.Keys && |names| == |values|
      invariant forall i, j :: 0 <= i < j < |names| ==> names[i] != names[j]
      invariant forall i :: 0 <= i < |names| ==> names[i] in cols.Keys - left && cols[names[i]] == values[i]
      invariant forall c :: c in cols.Keys - left ==> c in names
      decreases left
    {
      var name :| name in left;
      left := left - {name};
      names, values := names + [name], values + [cols[name]];
    }
  }

  /**
   Overwrites the given columns on exactly the rows whose ids are in the slice, or nothing: whatever the order of the
   columns, even when an id itself is overwritten, and for ids that no row has or that are given twice. It fails exactly
   if the connection does, there are no columns or unknown ones, or the constraints forbid the outcome.
   */
  method UpdateAll<V(==)>(db: Store<V>, up: bool, slice: seq<V>, cols: map<string, V>) returns (r: Result<nat>)
    requires db.Valid()
    modifies db
    ensures db.Valid()
    ensures r.Ok? ==> db.table == Overwritten(old(db.table), slice, cols) && r.value == |WithIds(old(db.table), slice)|
    ensures r.Err? ==> db.table == old(db.table)
    ensures slice == [] ==> r.Ok?
    ensures slice != [] ==>
              (r.Ok? <==> up && cols != map[] && cols.Keys <= db.columns
                          && db.constraints(Overwritten(old(db.table), slice, cols)))
  {
    var ln := |slice|;
    if ln == 0 {
      assert WithIds(db.table, slice) == {};
      return Ok(0);
    }
    if |cols| == 0 {
      return Err;
    }
    var colNames, args := Range(cols);
    ghost var values, was := args, db.table;
    for i := 0 to ln
      invariant args == values + slice[..i]
    {
      args := args + [slice[i]];
    }
    assert slice[..ln] == slice;
    WellFormedExactly(db.columns, cols, colNames, values, slice);
    if cols.Keys <= db.columns {
      StatementOverwrites(was, db.columns, cols, colNames, values, slice);
    }
    r := db.Exec(up, UpdateAllStatement(colNames, ln), args);
  }
}

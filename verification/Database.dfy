/** The database as the model layer sees it: statements that may fail, and queries whose rows come in any order. */
module Database {
  import opened Users
  import opened Wrappers

  /** rows is an answer to a query with the given condition: each matching row once, in any order. */
  ghost predicate Answers(t: Table, matches: Row -> bool, rows: seq<Row>) {
    && (forall i :: 0 <= i < |rows| ==> rows[i].id in t && t[rows[i].id] == rows[i] && matches(rows[i]))
    && (forall i, j :: 0 <= i < j < |rows| ==> rows[i].id != rows[j].id)
    && (forall id :: id in t && matches(t[id]) ==> t[id] in rows)
  }

  /** A connection: a statement may fail for reasons outside the model (not up), and then changes nothing. */
  class DB {
    var table: Table

    ghost predicate Valid()
      reads this
    {
      Sound(table)
    }

    constructor (t: Table)
      requires Sound(t)
      ensures Valid() && table == t
    {
      table := t;
    }

    /** A statement takes effect if the connection is up and the constraints allow it. */
    method Exec(up: bool, next: Table) returns (ok: bool)
      modifies this
      ensures ok <==> up && Sound(next)
      ensures table == if ok then next else old(table)
    {
      ok := up && Sound(next);
      if ok {
        table := next;
      }
    }

    method Insert(up: bool, row: Row) returns (ok: bool)
      requires Valid()
      modifies this
      ensures Valid()
      ensures ok <==> up && row.id !in old(table) && Sound(old(table)[row.id := row])
      ensures table == if ok then old(table)[row.id := row] else old(table)
    {
      if row.id in table {
        return false;
      }
      ok := Exec(up, table[row.id := row]);
    }

    /** Refused exactly if there is a row to set the referrer for and the referrer is no row. */
    method SetReferrer(up: bool, id: string, referrer: Option<string>) returns (ok: bool)
      requires Valid()
      modifies this
      ensures Valid()
      ensures ok <==> up && (id !in old(table) || referrer.None? || referrer.value in old(table))
      ensures table == if ok then Users.SetReferrer(old(table), id, referrer) else old(table)
    {
      SetReferrerSound(table, id, referrer);
      ok := Exec(up, Users.SetReferrer(table, id, referrer));
    }

    /** No constraint ever refuses to clear a referrer. */
    method ClearReferrer(up: bool, referrer: string) returns (ok: bool)
      requires Valid()
      modifies this
      ensures Valid()
      ensures ok <==> up
      ensures table == if ok then Users.ClearReferrer(old(table), referrer) else old(table)
    {
      ClearKeepsSound(table, referrer);
      ok := Exec(up, Users.ClearReferrer(table, referrer));
    }

    /** The whole-row write of an object that was read before. */
    method Update(up: bool, row: Row) returns (ok: bool)
      requires Valid()
      modifies this
      ensures Valid()
      ensures ok <==> up && WriteBack(old(table), row).Ok?
      ensures table == if ok then WriteBack(old(table), row).value else old(table)
    {
      if row.id !in table {
        ok := Exec(up, table);
      } else {
        ok := Exec(up, table[row.id := row.(createdAt := table[row.id].createdAt)]);
      }
    }

    /** No constraint ever refuses a delete. */
    method Delete(up: bool, id: string) returns (ok: bool)
      requires Valid()
      modifies this
      ensures Valid()
      ensures ok <==> up
      ensures table == if ok then DeleteRow(old(table), id) else old(table)
    {
      DeleteKeepsSound(table, id);
      ok := Exec(up, DeleteRow(table, id));
    }

    method Select(up: bool, matches: Row -> bool) returns (rows: Result<seq<Row>>)
      requires Valid()
      ensures rows.Ok? <==> up
      ensures rows.Ok? ==> Answers(table, matches, rows.value)
    {
      rows := SelectOrdered(up, matches, (row: Row) => 0);
    }

    /** A query with an order: highest keys first, ties in any order. */
    method SelectOrdered(up: bool, matches: Row -> bool, key: Row -> int) returns (rows: Result<seq<Row>>)
      requires Valid()
      ensures rows.Ok? <==> up
      ensures rows.Ok? ==> Answers(table, matches, rows.value) && Descending(rows.value, key)
    {
      if !up {
        return Err;
      }
      var left := table.Keys;
      var found: seq<Row> := [];
      while left != {}
        invariant left <= table.Keys && Gathered(table, table.Keys - left, matches, found)
        invariant Descending(found, key) && NoHigher(table, left, key, found)
        decreases left
      {
        SomeHighest(table, left, key);
        var id :| id in left && IsHighest(table, left, key, id);
        GatheredMore(table, table.Keys - left, matches, found, id);
        StillDescending(table, left, key, found, id);
        assert table.Keys - (left - {id}) == table.Keys - left + {id};
        left := left - {id};
        if matches(table[id]) {
          found := found + [table[id]];
        }
      }
      assert table.Keys - left == table.Keys;
      rows := Ok(found);
    }
  }

  /** found has the matching rows of the given ids, each once. */
  ghost predicate Gathered(t: Table, ids: set<string>, matches: Row -> bool, found: seq<Row>) {
    && (forall i :: 0 <= i < |found| ==>
          found[i].id in ids && found[i].id in t && t[found[i].id] == found[i] && matches(found[i]))
    && (forall i, j :: 0 <= i < j < |found| ==> found[i].id != found[j].id)
    && (forall id :: id in ids && id in t && matches(t[id]) ==> t[id] in found)
  }

  /** No row left comes before those found. */
  ghost predicate NoHigher(t: Table, left: set<string>, key: Row -> int, found: seq<Row>)
    requires left <= t.Keys
  {
    forall i, id :: 0 <= i < |found| && id in left ==> key(found[i]) >= key(t[id])
  }

  predicate Descending(rows: seq<Row>, key: Row -> int) {
    forall i, j :: 0 <= i < j < |rows| ==> key(rows[i]) >= key(rows[j])
  }

  lemma GatheredMore(t: Table, ids: set<string>, matches: Row -> bool, found: seq<Row>, id: string)
    requires Keyed(t) && id in t && id !in ids && Gathered(t, ids, matches, found)
    ensures Gathered(t, ids + {id}, matches, if matches(t[id]) then found + [t[id]] else found)
  {
    var more := found + [t[id]];
    assert more[|found|] == t[id];
    forall k | k in ids && k in t && matches(t[k])
      ensures t[k] in more
    {
      assert t[k] in found;
    }
  }

  lemma StillDescending(t: Table, left: set<string>, key: Row -> int, found: seq<Row>, id: string)
    requires left <= t.Keys && id in left && IsHighest(t, left, key, id)
    requires Descending(found, key) && NoHigher(t, left, key, found)
    ensures Descending(found + [t[id]], key)
    ensures NoHigher(t, left - {id}, key, found) && NoHigher(t, left - {id}, key, found + [t[id]])
  {
  }

  predicate IsHighest(t: Table, ids: set<string>, key: Row -> int, id: string)
    requires ids <= t.Keys && id in t
  {
    forall k :: k in ids ==> key(t[k]) <= key(t[id])
  }

  lemma {:induction false} SomeHighest(t: Table, ids: set<string>, key: Row -> int)
    requires ids != {} && ids <= t.Keys
    ensures exists id :: id in ids && IsHighest(t, ids, key, id)
  {
    var first :| first in ids;
    var rest := ids - {first};
    if rest == {} {
      assert ids == {first};
      assert IsHighest(t, ids, key, first);
    } else {
      SomeHighest(t, rest, key);
      var best :| best in rest && IsHighest(t, rest, key, best);
      assert ids == rest + {first};
      assert IsHighest(t, ids, key, if key(t[first]) <= key(t[best]) then best else first);
    }
  }
}

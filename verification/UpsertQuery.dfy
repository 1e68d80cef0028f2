/** The text of an upsert statement (buildUpsertQueryPostgres). */
module UpsertQuery {
  import opened Text

  datatype UpsertOption = ConflictTarget(conflictTarget: string) | UpdateSet(updateSet: string)

  datatype UpsertOptions = UpsertOptions(conflictTarget: string, updateSet: string) {
    function Apply(option: UpsertOption): UpsertOptions {
      match option
      case ConflictTarget(t) => this.(conflictTarget := t)
      case UpdateSet(u) => this.(updateSet := u)
    }
  }

  const NoOptions := UpsertOptions("", "")

  /** The options in force: a later option of a kind replaces an earlier one. */
  function Effective(opts: seq<UpsertOption>): UpsertOptions {
    if opts == [] then NoOptions else Effective(opts[..|opts| - 1]).Apply(opts[|opts| - 1])
  }

  function Each(f: string -> string, names: seq<string>): seq<string> {
    seq(|names|, i requires 0 <= i < |names| => f(names[i]))
  }

  /** strmangle.Placeholders with numbered placeholders from 1. */
  function Placeholders(n: nat): string {
    Join(seq(n, i => "$" + Itoa(i + 1)), ",")
  }

  function ColumnsText(quote: string -> string, whitelist: seq<string>): string {
    if whitelist == [] then "DEFAULT VALUES"
    else "(" + Join(Each(quote, whitelist), ", ") + ") VALUES (" + Placeholders(|whitelist|) + ")"
  }

  function TargetText(quote: string -> string, conflict: seq<string>, options: UpsertOptions): string {
    if options.conflictTarget != "" then options.conflictTarget
    else if conflict == [] then ""
    else "(" + Join(Each(quote, conflict), ", ") + ")"
  }

  function Assignment(quote: string -> string, name: string): string {
    quote(name) + " = EXCLUDED." + quote(name)
  }

  function Assignments(quote: string -> string, names: seq<string>): seq<string> {
    Each(n => Assignment(quote, n), names)
  }

  /** What the loop over the update columns writes. */
  function SetText(quote: string -> string, update: seq<string>): string {
    if update == [] then "" else
      var i := |update| - 1;
      SetText(quote, update[..i]) +
      if update[i] == "" then "" else (if i == 0 then "" else ",") + Assignment(quote, update[i])
  }

  function ActionText(quote: string -> string, updateOnConflict: bool, update: seq<string>,
                      options: UpsertOptions): string {
    if !updateOnConflict || update == [] then "DO NOTHING"
    else "DO UPDATE SET " + if options.updateSet != "" then options.updateSet else SetText(quote, update)
  }

  function ReturningText(quote: string -> string, ret: seq<string>): string {
    if ret == [] then "" else " RETURNING " + Join(Each(quote, ret), ", ")
  }

  function UpsertText(quote: string -> string, table: string, updateOnConflict: bool, ret: seq<string>,
                      update: seq<string>, conflict: seq<string>, whitelist: seq<string>,
                      opts: seq<UpsertOption>): string
  {
    "INSERT INTO " + table + " " + ColumnsText(quote, whitelist) + " ON CONFLICT "
    + TargetText(quote, conflict, Effective(opts)) + " "
    + ActionText(quote, updateOnConflict, update, Effective(opts)) + ReturningText(quote, ret)
  }

  method ApplyOptions(opts: seq<UpsertOption>) returns (options: UpsertOptions)
    ensures options == Effective(opts)
  {
    options := NoOptions;
    for i := 0 to |opts|
      invariant options == Effective(opts[..i])
    {
      assert opts[..i + 1][..i] == opts[..i];
      options := options.Apply(opts[i]);
    }
    assert opts[..|opts|] == opts;
  }

  method WriteSetList(buf: string, quote: string -> string, update: seq<string>) returns (out: string)
    ensures out == buf + SetText(quote, update)
  {
    out := buf;
    for i := 0 to |update|
      invariant out == buf + SetText(quote, update[..i])
    {
      assert update[..i + 1][..i] == update[..i];
      if |update[i]| == 0 {
        continue;
      }
      if i != 0 {
        out := out + ",";
      }
      var quoted := quote(update[i]);
      out := out + quoted;
      out := out + " = EXCLUDED.";
      out := out + quoted;
    }
    assert update[..|update|] == update;
  }

  method WriteTarget(buf: string, quote: string -> string, conflict: seq<string>, options: UpsertOptions)
    returns (out: string)
    ensures out == buf + TargetText(quote, conflict, options)
  {
    out := buf;
    if options.conflictTarget != "" {
      out := out + options.conflictTarget;
    } else if |conflict| != 0 {
      out := out + "(";
      out := out + Join(Each(quote, conflict), ", ");
      out := out + ")";
    }
  }

  method WriteAction(buf: string, quote: string -> string, updateOnConflict: bool, update: seq<string>,
                     options: UpsertOptions)
    returns (out: string)
    ensures out == buf + ActionText(quote, updateOnConflict, update, options)
  {
    out := buf;
    if !updateOnConflict || |update| == 0 {
      out := out + "DO NOTHING";
    } else {
      out := out + "DO UPDATE SET ";
      if options.updateSet != "" {
        out := out + options.updateSet;
      } else {
        out := WriteSetList(out, quote, update);
      }
    }
  }

  method WriteReturning(buf: string, quote: string -> string, ret: seq<string>) returns (out: string)
    ensures out == buf + ReturningText(quote, ret)
  {
    out := buf;
    if |ret| != 0 {
      out := out + " RETURNING ";
      out := out + Join(Each(quote, ret), ", ");
    }
  }

  method BuildUpsertQuery(quote: string -> string, table: string, updateOnConflict: bool, ret: seq<string>,
                          update: seq<string>, conflict: seq<string>, whitelist: seq<string>, opts: seq<UpsertOption>)
    returns (query: string)
    ensures query == UpsertText(quote, table, updateOnConflict, ret, update, conflict, whitelist, opts)
  {
    var options := ApplyOptions(opts);
    var columns := "DEFAULT VALUES";
    if |whitelist| != 0 {
      columns := "(" + Join(Each(quote, whitelist), ", ") + ") VALUES (" + Placeholders(|whitelist|) + ")";
    }
    assert columns == ColumnsText(quote, whitelist);
    var buf := "INSERT INTO " + table + " " + columns + " ON CONFLICT ";
    buf := WriteTarget(buf, quote, conflict, options);
    buf := buf + " ";
    buf := WriteAction(buf, quote, updateOnConflict, update, options);
    query := WriteReturning(buf, quote, ret);
  }

  function NonEmpty(names: seq<string>): seq<string> {
    if names == [] then [] else
      var i := |names| - 1;
      NonEmpty(names[..i]) + if names[i] == "" then [] else [names[i]]
  }

  function SetJoin(quote: string -> string, update: seq<string>): string {
    Join(Assignments(quote, NonEmpty(update)), ",")
  }

  predicate StrayComma(update: seq<string>) {
    update != [] && update[0] == "" && NonEmpty(update) != []
  }

  lemma SetTextStep(quote: string -> string, front: seq<string>, last: string)
    ensures SetText(quote, front + [last]) ==
            SetText(quote, front) +
            if last == "" then "" else (if front == [] then "" else ",") + Assignment(quote, last)
    ensures NonEmpty(front + [last]) == NonEmpty(front) + if last == "" then [] else [last]
  {
    assert (front + [last])[..|front|] == front;
  }

  lemma Regroup(a: string, b: string, c: string)
    ensures (a + b) + c == a + (b + c)
  {
  }

  function StrayText(update: seq<string>): string {
    if StrayComma(update) then "," else ""
  }

  lemma StrayAfter(front: seq<string>, last: string)
    requires last != "" && front != []
    ensures NonEmpty(front + [last]) == NonEmpty(front) + [last]
    ensures StrayComma(front + [last]) <==> front[0] == ""
  {
    assert (front + [last])[..|front|] == front;
    assert (front + [last])[0] == front[0];
  }

  /** One more name in the SET list. */
  lemma SetTextMore(quote: string -> string, front: seq<string>, last: string)
    requires last != "" && front != []
    requires SetText(quote, front) == StrayText(front) + SetJoin(quote, front)
    requires front[0] != "" ==> NonEmpty(front) != []
    ensures SetText(quote, front + [last]) == StrayText(front + [last]) + SetJoin(quote, front + [last])
  {
    SetTextStep(quote, front, last);
    StrayAfter(front, last);
    AssignmentsSnoc(quote, NonEmpty(front), last);
    var next := "," + Assignment(quote, last);
    if NonEmpty(front) != [] {
      Regroup(StrayText(front), SetJoin(quote, front), next);
    } else {
      assert SetText(quote, front) == "";
    }
  }

  lemma {:induction false} SetTextShape(quote: string -> string, update: seq<string>)
    ensures SetText(quote, update) == StrayText(update) + SetJoin(quote, update)
    ensures update != [] && update[0] != "" ==> NonEmpty(update) != []
    decreases |update|
  {
    if update != [] {
      var front, last := update[..|update| - 1], update[|update| - 1];
      assert update == front + [last];
      SetTextShape(quote, front);
      SetTextStep(quote, front, last);
      if last == "" {
        assert NonEmpty(update) == NonEmpty(front);
      } else if front != [] {
        SetTextMore(quote, front, last);
      } else {
        AssignmentsSnoc(quote, [], last);
        assert [] + [last] == [last];
      }
    }
  }

  lemma AssignmentsSnoc(quote: string -> string, names: seq<string>, last: string)
    ensures Join(Assignments(quote, names + [last]), ",") ==
            Join(Assignments(quote, names), ",") + ((if names == [] then "" else ",") + Assignment(quote, last))
  {
    var texts := Assignments(quote, names);
    assert Assignments(quote, names + [last]) == texts + [Assignment(quote, last)];
    if names == [] {
      assert texts + [Assignment(quote, last)] == [Assignment(quote, last)];
    } else {
      JoinSnoc(texts, ",", Assignment(quote, last));
    }
  }

  /** The SET list is the comma-join over the non-empty names, except when an empty name precedes one of them. */
  lemma SetListIsJoin(quote: string -> string, update: seq<string>)
    ensures SetText(quote, update) == SetJoin(quote, update) <==>
            update == [] || update[0] != "" || NonEmpty(update) == []
  {
    SetTextShape(quote, update);
  }

  lemma NumeralHasNoDollar(n: int)
    ensures multiset(Itoa(n))['$'] == 0
  {
    assert '$' !in Itoa(n);
  }

  lemma {:induction false} JoinCounts(parts: seq<string>, c: char)
    requires c != ','
    requires forall i :: 0 <= i < |parts| ==> multiset(parts[i])[c] == 1
    ensures multiset(Join(parts, ","))[c] == |parts|
  {
    if |parts| > 1 {
      JoinCounts(parts[1..], c);
      assert Join(parts, ",") == parts[0] + "," + Join(parts[1..], ",");
    }
  }

  /** An insert column list gets one placeholder for each of its names. */
  lemma OnePlaceholderEach(n: nat)
    ensures multiset(Placeholders(n))['$'] == n
  {
    var parts := seq(n, i => "$" + Itoa(i + 1));
    forall i | 0 <= i < n
      ensures multiset(parts[i])['$'] == 1
    {
      NumeralHasNoDollar(i + 1);
      assert parts[i] == "$" + Itoa(i + 1);
    }
    JoinCounts(parts, '$');
  }

  lemma {:induction false} JoinLacks(parts: seq<string>, sep: string, c: char)
    requires c !in sep
    requires forall i :: 0 <= i < |parts| ==> c !in parts[i]
    ensures c !in Join(parts, sep)
  {
    if |parts| > 1 {
      JoinLacks(parts[1..], sep, c);
      assert Join(parts, sep) == parts[0] + sep + Join(parts[1..], sep);
    }
  }

  /** Only the values between the brackets have a character that neither the names nor the brackets have. */
  lemma CountBetween(names: string, values: string, c: char)
    requires c !in names && c !in "()" && c !in ") VALUES ("
    ensures multiset("(" + names + ") VALUES (" + values + ")")[c] == multiset(values)[c]
  {
    CountConcat("(", names, c);
    CountConcat("(" + names, ") VALUES (", c);
    CountConcat("(" + names + ") VALUES (", values, c);
    CountConcat("(" + names + ") VALUES (" + values, ")", c);
    CountNone(names, c);
    CountNone(") VALUES (", c);
    assert "()"[0] == '(' && "()"[1] == ')';
  }

  lemma PlaceholdersOfColumns(quote: string -> string, whitelist: seq<string>)
    requires forall i :: 0 <= i < |whitelist| ==> '$' !in quote(whitelist[i])
    ensures multiset(ColumnsText(quote, whitelist))['$'] == |whitelist|
  {
    if whitelist != [] {
      var names, values := Join(Each(quote, whitelist), ", "), Placeholders(|whitelist|);
      JoinLacks(Each(quote, whitelist), ", ", '$');
      OnePlaceholderEach(|whitelist|);
      CountBetween(names, values, '$');
    } else {
      CountNone("DEFAULT VALUES", '$');
    }
  }

  lemma {:induction false} SetTextLacks(quote: string -> string, update: seq<string>, c: char)
    requires c !in " = EXCLUDED." && c != ','
    requires forall i :: 0 <= i < |update| ==> c !in quote(update[i])
    ensures c !in SetText(quote, update)
    decreases |update|
  {
    if update != [] {
      var i := |update| - 1;
      SetTextLacks(quote, update[..i], c);
      assert c !in Assignment(quote, update[i]);
    }
  }

  lemma ClauseLacks(quote: string -> string, updateOnConflict: bool, update: seq<string>, conflict: seq<string>,
                    options: UpsertOptions)
    requires forall i :: 0 <= i < |update| ==> '$' !in quote(update[i])
    requires forall i :: 0 <= i < |conflict| ==> '$' !in quote(conflict[i])
    requires '$' !in options.conflictTarget && '$' !in options.updateSet
    ensures '$' !in ClauseText(quote, updateOnConflict, update, conflict, options)
  {
    JoinLacks(Each(quote, conflict), ", ", '$');
    SetTextLacks(quote, update, '$');
    assert '$' !in TargetText(quote, conflict, options);
    assert '$' !in "DO UPDATE SET " && '$' !in "DO NOTHING";
    assert '$' !in ActionText(quote, updateOnConflict, update, options);
  }

  /** The statement has as many placeholders as insert columns, unless a '$' comes with a name or an option. */
  lemma PlaceholdersOfStatement(quote: string -> string, table: string, updateOnConflict: bool, ret: seq<string>,
                                update: seq<string>, conflict: seq<string>, whitelist: seq<string>,
                                opts: seq<UpsertOption>)
    requires '$' !in table && '$' !in Effective(opts).conflictTarget && '$' !in Effective(opts).updateSet
    requires forall i :: 0 <= i < |whitelist| ==> '$' !in quote(whitelist[i])
    requires forall i :: 0 <= i < |update| ==> '$' !in quote(update[i])
    requires forall i :: 0 <= i < |conflict| ==> '$' !in quote(conflict[i])
    requires forall i :: 0 <= i < |ret| ==> '$' !in quote(ret[i])
    ensures var text := UpsertText(quote, table, updateOnConflict, ret, update, conflict, whitelist, opts);
            multiset(text)['$'] == |whitelist|
  {
    var columns := ColumnsText(quote, whitelist);
    var clause := ClauseText(quote, updateOnConflict, update, conflict, Effective(opts));
    var returning := ReturningText(quote, ret);
    PlaceholdersOfColumns(quote, whitelist);
    ClauseLacks(quote, updateOnConflict, update, conflict, Effective(opts));
    ReturningLacks(quote, ret);
    HeadLacks(table);
    UpsertTextParts(quote, table, updateOnConflict, ret, update, conflict, whitelist, opts);
    CountAround("INSERT INTO " + table + " ", columns, " ON CONFLICT ", clause, returning, '$');
  }

  lemma ReturningLacks(quote: string -> string, ret: seq<string>)
    requires forall i :: 0 <= i < |ret| ==> '$' !in quote(ret[i])
    ensures '$' !in ReturningText(quote, ret)
  {
    JoinLacks(Each(quote, ret), ", ", '$');
    assert '$' !in " RETURNING ";
  }

  lemma HeadLacks(table: string)
    requires '$' !in table
    ensures '$' !in "INSERT INTO " + table + " " && '$' !in " ON CONFLICT "
  {
  }

  lemma CountAround(before: string, columns: string, mid: string, clause: string, returning: string, c: char)
    requires c !in before && c !in mid && c !in clause && c !in returning
    ensures multiset((before + columns + mid) + clause + returning)[c] == multiset(columns)[c]
  {
    CountConcat(before, columns, c);
    CountConcat(before + columns, mid, c);
    CountConcat(before + columns + mid, clause, c);
    CountConcat(before + columns + mid + clause, returning, c);
    CountNone(before, c);
    CountNone(mid, c);
    CountNone(clause, c);
    CountNone(returning, c);
  }

  lemma CountNone(s: string, c: char)
    requires c !in s
    ensures multiset(s)[c] == 0
  {
  }

  lemma CountConcat(s: string, t: string, c: char)
    ensures multiset(s + t)[c] == multiset(s)[c] + multiset(t)[c]
  {
  }

  lemma Cancel(head: string, x: string, y: string, tail: string)
    ensures head + x + tail == head + y + tail <==> x == y
  {
    var a, b := head + x + tail, head + y + tail;
    if a == b {
      assert |x| == |y|;
      assert x == a[|head|..|head| + |x|];
      assert y == b[|head|..|head| + |y|];
    }
  }

  /** What the statement says of conflicts: all that the options shape. */
  function ClauseText(quote: string -> string, updateOnConflict: bool, update: seq<string>, conflict: seq<string>,
                      options: UpsertOptions): string
  {
    TargetText(quote, conflict, options) + " " + ActionText(quote, updateOnConflict, update, options)
  }

  lemma UpsertTextParts(quote: string -> string, table: string, updateOnConflict: bool, ret: seq<string>,
                        update: seq<string>, conflict: seq<string>, whitelist: seq<string>, opts: seq<UpsertOption>)
    ensures UpsertText(quote, table, updateOnConflict, ret, update, conflict, whitelist, opts) ==
            ("INSERT INTO " + table + " " + ColumnsText(quote, whitelist) + " ON CONFLICT ")
            + ClauseText(quote, updateOnConflict, update, conflict, Effective(opts)) + ReturningText(quote, ret)
  {
    var head := "INSERT INTO " + table + " " + ColumnsText(quote, whitelist) + " ON CONFLICT ";
    var target := TargetText(quote, conflict, Effective(opts));
    var action := ActionText(quote, updateOnConflict, update, Effective(opts));
    Regroup(head, target, " ");
    Regroup(head, target + " ", action);
  }

  /** What is done on a conflict, to the letter: nothing unless asked for, and else a given list or the columns. */
  lemma ActionExactly(quote: string -> string, updateOnConflict: bool, update: seq<string>, options: UpsertOptions)
    ensures !updateOnConflict || update == [] ==> ActionText(quote, updateOnConflict, update, options) == "DO NOTHING"
    ensures updateOnConflict && update != [] && options.updateSet != "" ==>
              ActionText(quote, updateOnConflict, update, options) == "DO UPDATE SET " + options.updateSet
    ensures updateOnConflict && update != [] && options.updateSet == "" && update[0] != "" ==>
              ActionText(quote, updateOnConflict, update, options) == "DO UPDATE SET " + SetJoin(quote, update)
  {
    SetListIsJoin(quote, update);
  }

  /** Two option lists make the same statement exactly if their effective options make the same conflict clause. */
  lemma OptionsShapeStatement(quote: string -> string, table: string, updateOnConflict: bool, ret: seq<string>,
                              update: seq<string>, conflict: seq<string>, whitelist: seq<string>,
                              a: seq<UpsertOption>, b: seq<UpsertOption>)
    ensures UpsertText(quote, table, updateOnConflict, ret, update, conflict, whitelist, a)
            == UpsertText(quote, table, updateOnConflict, ret, update, conflict, whitelist, b)
            <==> ClauseText(quote, updateOnConflict, update, conflict, Effective(a))
                 == ClauseText(quote, updateOnConflict, update, conflict, Effective(b))
  {
    UpsertTextParts(quote, table, updateOnConflict, ret, update, conflict, whitelist, a);
    UpsertTextParts(quote, table, updateOnConflict, ret, update, conflict, whitelist, b);
    Cancel("INSERT INTO " + table + " " + ColumnsText(quote, whitelist) + " ON CONFLICT ",
           ClauseText(quote, updateOnConflict, update, conflict, Effective(a)),
           ClauseText(quote, updateOnConflict, update, conflict, Effective(b)), ReturningText(quote, ret));
  }

  /** With one action the targets decide; with one target the SET lists do, unless nothing is to be updated. */
  lemma ClausesAgree(quote: string -> string, updateOnConflict: bool, update: seq<string>, conflict: seq<string>,
                     a: UpsertOptions, b: UpsertOptions)
    ensures ActionText(quote, updateOnConflict, update, a) == ActionText(quote, updateOnConflict, update, b) ==>
              (ClauseText(quote, updateOnConflict, update, conflict, a)
               == ClauseText(quote, updateOnConflict, update, conflict, b)
               <==> TargetText(quote, conflict, a) == TargetText(quote, conflict, b))
    ensures TargetText(quote, conflict, a) == TargetText(quote, conflict, b) ==>
              (ClauseText(quote, updateOnConflict, update, conflict, a)
               == ClauseText(quote, updateOnConflict, update, conflict, b)
               <==> !updateOnConflict || update == [] || SetChoice(quote, update, a) == SetChoice(quote, update, b))
  {
    var targetA, targetB := TargetText(quote, conflict, a), TargetText(quote, conflict, b);
    var actionA := ActionText(quote, updateOnConflict, update, a);
    var actionB := ActionText(quote, updateOnConflict, update, b);
    CancelTail(targetA, targetB, " ", actionA);
    CancelHead(targetA + " ", actionA, actionB);
    CancelHead("DO UPDATE SET ", SetChoice(quote, update, a), SetChoice(quote, update, b));
  }

  /** The SET list in force. */
  function SetChoice(quote: string -> string, update: seq<string>, options: UpsertOptions): string {
    if options.updateSet != "" then options.updateSet else SetText(quote, update)
  }

  lemma CancelHead(head: string, x: string, y: string)
    ensures head + x == head + y <==> x == y
  {
    assert head + x + "" == head + x && head + y + "" == head + y;
    Cancel(head, x, y, "");
  }

  lemma CancelTail(x: string, y: string, mid: string, tail: string)
    ensures x + mid + tail == y + mid + tail <==> x == y
  {
    assert "" + x + (mid + tail) == x + mid + tail && "" + y + (mid + tail) == y + mid + tail;
    Cancel("", x, y, mid + tail);
  }

  /** A conflict target makes another statement exactly if it is not the default one. */
  lemma TargetShapesStatement(quote: string -> string, table: string, updateOnConflict: bool, ret: seq<string>,
                              update: seq<string>, conflict: seq<string>, whitelist: seq<string>, target: string)
    requires target != ""
    ensures UpsertText(quote, table, updateOnConflict, ret, update, conflict, whitelist, [ConflictTarget(target)])
            == UpsertText(quote, table, updateOnConflict, ret, update, conflict, whitelist, [])
            <==> target == TargetText(quote, conflict, NoOptions)
  {
    TargetAlone(target);
    OptionsShapeStatement(quote, table, updateOnConflict, ret, update, conflict, whitelist,
                          [ConflictTarget(target)], []);
    ClausesAgree(quote, updateOnConflict, update, conflict, UpsertOptions(target, ""), NoOptions);
  }

  lemma TargetAlone(target: string)
    ensures Effective([ConflictTarget(target)]) == UpsertOptions(target, "")
  {
    assert [ConflictTarget(target)][..0] == [];
  }

  /** A conflict target followed by no other is in force, whatever else is given; so is an update list. */
  lemma {:induction false} LastOptionHolds(opts: seq<UpsertOption>, i: nat)
    requires i < |opts|
    ensures opts[i].ConflictTarget? && (forall j :: i < j < |opts| ==> !opts[j].ConflictTarget?) ==>
              Effective(opts).conflictTarget == opts[i].conflictTarget
    ensures opts[i].UpdateSet? && (forall j :: i < j < |opts| ==> !opts[j].UpdateSet?) ==>
              Effective(opts).updateSet == opts[i].updateSet
    decreases |opts|
  {
    var front := opts[..|opts| - 1];
    if i < |front| {
      LastOptionHolds(front, i);
      assert forall j :: i < j < |front| ==> front[j] == opts[j];
    }
  }

  /** A field is empty if no option sets it. */
  lemma {:induction false} NoOptionHolds(opts: seq<UpsertOption>)
    ensures (forall j :: 0 <= j < |opts| ==> !opts[j].ConflictTarget?) ==> Effective(opts).conflictTarget == ""
    ensures (forall j :: 0 <= j < |opts| ==> !opts[j].UpdateSet?) ==> Effective(opts).updateSet == ""
    decreases |opts|
  {
    if opts != [] {
      NoOptionHolds(opts[..|opts| - 1]);
    }
  }
}

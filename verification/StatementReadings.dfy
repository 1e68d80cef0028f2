/** What the statements of Insert, Update and Upsert read as: the names they give and the placeholders, in order. */
module StatementReadings {
  import opened CacheKeys
  import opened ColumnNames
  import opened Reading
  import opened Statements
  import opened Text
  import opened UpsertQuery
  import opened Wrappers

  function Idents(names: seq<string>): seq<Token> {
    seq(|names|, i requires 0 <= i < |names| => Ident(names[i]))
  }

  /** The parameters 1 to n. */
  function Params(n: nat): seq<Token> {
    seq(n, i requires 0 <= i < n => Param(i + 1))
  }

  /** Each name followed by the parameter of its own number, counting from 1. */
  function Bound(names: seq<string>): seq<Token> {
    seq(2 * |names|, k requires 0 <= k < 2 * |names| => if k % 2 == 0 then Ident(names[k / 2]) else Param(k / 2 + 1))
  }

  /** Each name twice. */
  function Doubled(names: seq<string>): seq<Token> {
    seq(2 * |names|, k requires 0 <= k < 2 * |names| => Ident(names[k / 2]))
  }

  ghost predicate Namable(names: seq<string>) {
    forall i :: 0 <= i < |names| ==> '"' !in names[i]
  }

  const TableIdents := [Ident("users_api"), Ident("users")]

  lemma {:induction false} FlatSingles(tokens: seq<seq<Token>>, flat: seq<Token>)
    requires |flat| == |tokens| && forall i :: 0 <= i < |tokens| ==> tokens[i] == [flat[i]]
    ensures Flat(tokens) == flat
    decreases |tokens|
  {
    if tokens != [] {
      FlatSingles(tokens[1..], flat[1..]);
      assert flat == [flat[0]] + flat[1..];
    }
  }

  lemma {:induction false} FlatPairs(tokens: seq<seq<Token>>, flat: seq<Token>)
    requires |flat| == 2 * |tokens| && forall i :: 0 <= i < |tokens| ==> tokens[i] == [flat[2 * i], flat[2 * i + 1]]
    ensures Flat(tokens) == flat
    decreases |tokens|
  {
    if tokens != [] {
      forall i | 0 <= i < |tokens| - 1
        ensures tokens[1..][i] == [flat[2..][2 * i], flat[2..][2 * i + 1]]
      {
        assert tokens[i + 1] == [flat[2 * (i + 1)], flat[2 * (i + 1) + 1]];
      }
      FlatPairs(tokens[1..], flat[2..]);
      assert tokens[0] == [flat[2 * 0], flat[2 * 0 + 1]];
      assert flat == [flat[0], flat[1]] + flat[2..];
    }
  }

  /* Words of a statement that are neither names nor placeholders. */

  lemma SkipDefaults(x: string)
    ensures Tokens(" DEFAULT VALUES" + x) == Tokens(x)
  {
    PlainTokens(" DEFAULT VALUES", x);
  }

  lemma SkipDefaultValues(x: string)
    ensures Tokens("DEFAULT VALUES" + x) == Tokens(x)
  {
    PlainTokens("DEFAULT VALUES", x);
  }

  lemma SkipOpening(x: string)
    ensures Tokens(" (" + x) == Tokens(x)
  {
    PlainTokens(" (", x);
  }

  lemma SkipBracket(x: string)
    ensures Tokens("(" + x) == Tokens(x)
  {
    PlainTokens("(", x);
  }

  lemma SkipClosing(x: string)
    ensures Tokens(")" + x) == Tokens(x)
  {
    PlainTokens(")", x);
  }

  lemma SkipValues(x: string)
    ensures Tokens(") VALUES (" + x) == Tokens(x)
  {
    PlainTokens(") VALUES (", x);
  }

  lemma SkipNothing(x: string)
    ensures Tokens("DO NOTHING" + x) == Tokens(x)
  {
    PlainTokens("DO NOTHING", x);
  }

  lemma SkipUpdateSet(x: string)
    ensures Tokens("DO UPDATE SET " + x) == Tokens(x)
  {
    PlainTokens("DO UPDATE SET ", x);
  }

  lemma SkipConflict(x: string)
    ensures Tokens(" ON CONFLICT " + x) == Tokens(x)
  {
    PlainTokens(" ON CONFLICT ", x);
  }

  lemma SkipSpace(x: string)
    ensures Tokens(" " + x) == Tokens(x)
  {
    PlainTokens(" ", x);
  }

  lemma SkipReturning(x: string)
    ensures Tokens(" RETURNING " + x) == Tokens(x)
  {
    PlainTokens(" RETURNING ", x);
  }

  lemma SkipInsert(x: string)
    ensures Tokens("INSERT INTO " + x) == Tokens(x)
  {
    PlainTokens("INSERT INTO ", x);
  }

  lemma SkipUpdate(x: string)
    ensures Tokens("UPDATE " + x) == Tokens(x)
  {
    PlainTokens("UPDATE ", x);
  }

  lemma SkipSet(x: string)
    ensures Tokens(" SET " + x) == Tokens(x)
  {
    PlainTokens(" SET ", x);
  }

  lemma SkipWhere(x: string)
    ensures Tokens(" WHERE " + x) == Tokens(x)
  {
    PlainTokens(" WHERE ", x);
  }

  lemma SkipExcluded(x: string)
    ensures Tokens(" = EXCLUDED." + x) == Tokens(x)
  {
    PlainTokens(" = EXCLUDED.", x);
  }

  lemma SkipEquals(x: string)
    ensures Tokens("=" + x) == Tokens(x)
  {
    PlainTokens("=", x);
  }

  lemma SkipDot(x: string)
    ensures Tokens("." + x) == Tokens(x)
  {
    PlainTokens(".", x);
  }

  lemma QuotedTokensOf(name: string, x: string)
    requires '"' !in name
    ensures Tokens(Quoted(name) + x) == [Ident(name)] + Tokens(x)
  {
    QuotedTokens(name, x);
  }

  lemma ReadsName(name: string)
    requires '"' !in name
    ensures Reads(Quoted(name), [Ident(name)])
  {
    forall x: string | Free(x)
      ensures Tokens(Quoted(name) + x) == [Ident(name)] + Tokens(x)
    {
      QuotedTokensOf(name, x);
    }
  }

  lemma ReadsParam(n: int)
    ensures Reads("$" + Itoa(n), [Param(n)])
  {
    forall x: string | Free(x)
      ensures Tokens("$" + Itoa(n) + x) == [Param(n)] + Tokens(x)
    {
      ParamTokens(n, x);
    }
  }

  /** A list of quoted names. */
  lemma NamesTokens(names: seq<string>, sep: string, x: string)
    requires Namable(names) && IsPlain(sep) && sep != "" && Free(sep) && Free(x)
    ensures Tokens(Join(Each(Quoted, names), sep) + x) == Idents(names) + Tokens(x)
  {
    var tokens := seq(|names|, i requires 0 <= i < |names| => [Ident(names[i])]);
    forall i | 0 <= i < |names|
      ensures Reads(Each(Quoted, names)[i], tokens[i])
    {
      ReadsName(names[i]);
    }
    JoinTokens(Each(Quoted, names), tokens, sep, x);
    FlatSingles(tokens, Idents(names));
  }

  /** A list of placeholders. */
  lemma PlaceholdersTokens(n: nat, x: string)
    requires Free(x)
    ensures Tokens(Placeholders(n) + x) == Params(n) + Tokens(x)
  {
    var parts: seq<string> := seq(n, i => "$" + Itoa(i + 1));
    var tokens := seq(n, i requires 0 <= i < n => [Param(i + 1)]);
    forall i | 0 <= i < n
      ensures Reads(parts[i], tokens[i])
    {
      ReadsParam(i + 1);
    }
    JoinTokens(parts, tokens, ",", x);
    FlatSingles(tokens, Params(n));
    assert Placeholders(n) == Join(parts, ",");
  }

  /** "name"=$n */
  lemma BindingTokens(name: string, n: int, x: string)
    requires '"' !in name && Free(x)
    ensures Tokens(Quoted(name) + "=$" + Itoa(n) + x) == [Ident(name), Param(n)] + Tokens(x)
  {
    var rest := "$" + Itoa(n) + x;
    QuotedTokensOf(name, "=" + rest);
    SkipEquals(rest);
    ParamTokens(n, x);
    assert Quoted(name) + "=$" + Itoa(n) + x == Quoted(name) + ("=" + rest);
  }

  lemma ReadsBinding(name: string, n: int)
    requires '"' !in name
    ensures Reads(Quoted(name) + "=$" + Itoa(n), [Ident(name), Param(n)])
  {
    forall x: string | Free(x)
      ensures Tokens(Quoted(name) + "=$" + Itoa(n) + x) == [Ident(name), Param(n)] + Tokens(x)
    {
      BindingTokens(name, n, x);
    }
  }

  lemma BindingsTokens(names: seq<string>, x: string)
    requires Namable(names) && Free(x)
    ensures Tokens(SetParamNames(names, 1) + x) == Bound(names) + Tokens(x)
  {
    var tokens := seq(|names|, i requires 0 <= i < |names| => [Ident(names[i]), Param(i + 1)]);
    forall i | 0 <= i < |names|
      ensures Reads(ParamTexts(names, 1)[i], tokens[i])
    {
      ReadsBinding(names[i], 1 + i);
    }
    JoinTokens(ParamTexts(names, 1), tokens, ",", x);
    BoundPairs(names, tokens);
  }

  lemma BoundPairs(names: seq<string>, tokens: seq<seq<Token>>)
    requires |tokens| == |names| && forall i :: 0 <= i < |names| ==> tokens[i] == [Ident(names[i]), Param(i + 1)]
    ensures Flat(tokens) == Bound(names)
  {
    forall i | 0 <= i < |tokens|
      ensures tokens[i] == [Bound(names)[2 * i], Bound(names)[2 * i + 1]]
    {
      assert (2 * i) / 2 == i && (2 * i + 1) / 2 == i && (2 * i) % 2 == 0 && (2 * i + 1) % 2 == 1;
    }
    FlatPairs(tokens, Bound(names));
  }

  lemma TableText()
    ensures UsersTable == Quoted("users_api") + ("." + Quoted("users"))
  {
    assert Quoted("users_api") == "\"users_api\"" && Quoted("users") == "\"users\"";
  }

  lemma TableTokens(x: string)
    ensures Tokens(UsersTable + x) == TableIdents + Tokens(x)
  {
    var rest := Quoted("users") + x;
    TableText();
    QuotedTokensOf("users_api", "." + rest);
    SkipDot(rest);
    QuotedTokensOf("users", x);
    assert UsersTable + x == Quoted("users_api") + ("." + rest);
  }

  lemma WhereId(n: string)
    ensures " WHERE " + (Quoted("id") + "=$" + n) == " WHERE \"id\"=$" + n
  {
    assert Quoted("id") == "\"id\"";
    assert " WHERE " + "\"id\"" + "=$" == " WHERE \"id\"=$";
  }

  lemma UpdateTextParts(sets: string, n: string)
    ensures "UPDATE " + UsersTable + " SET " + sets + " WHERE \"id\"=$" + n ==
            "UPDATE " + (UsersTable + (" SET " + (sets + (" WHERE " + (Quoted("id") + "=$" + n)))))
  {
    WhereId(n);
    Regroup("UPDATE " + UsersTable + " SET " + sets, " WHERE \"id\"=$", n);
  }

  /** An update sets the i-th column to the i-th parameter and asks for the id that the one after them gives. */
  lemma UpdateReads(wl: seq<string>)
    requires Namable(wl)
    ensures Tokens("UPDATE " + UsersTable + " SET " + SetParamNames(wl, 1) + " WHERE \"id\"=$" + Itoa(|wl| + 1)) ==
            TableIdents + Bound(wl) + [Ident("id"), Param(|wl| + 1)]
  {
    var n, sets := Itoa(|wl| + 1), SetParamNames(wl, 1);
    var condition := Quoted("id") + "=$" + n;
    UpdateTextParts(sets, n);
    SkipUpdate(UsersTable + (" SET " + (sets + (" WHERE " + condition))));
    TableTokens(" SET " + (sets + (" WHERE " + condition)));
    SkipSet(sets + (" WHERE " + condition));
    BindingsTokens(wl, " WHERE " + condition);
    SkipWhere(condition);
    BindingTokens("id", |wl| + 1, "");
    assert condition + "" == condition;
  }

  lemma {:induction false} QuotedJoin(names: seq<string>)
    requires names != []
    ensures "\"" + Join(names, "\",\"") + "\"" == Join(Each(Quoted, names), ",")
    decreases |names|
  {
    assert Each(Quoted, names)[1..] == Each(Quoted, names[1..]);
    if |names| > 1 {
      var rest := Join(names[1..], "\",\"");
      QuotedJoin(names[1..]);
      QuotedPair(names[0], rest);
    }
  }

  lemma QuotedPair(name: string, rest: string)
    ensures "\"" + (name + "\",\"" + rest) + "\"" == Quoted(name) + "," + ("\"" + rest + "\"")
  {
    assert "\",\"" == "\"" + "," + "\"";
  }

  /** The returning clause gives its names, if there are any. */
  function ReturningPart(ret: seq<string>): string {
    if ret == [] then "" else " RETURNING " + Join(Each(Quoted, ret), ",")
  }

  lemma ReturningTokens(ret: seq<string>)
    requires Namable(ret)
    ensures Free(ReturningPart(ret)) && Tokens(ReturningPart(ret)) == Idents(ret)
  {
    if ret != [] {
      var names := Join(Each(Quoted, ret), ",");
      SkipReturning(names);
      NamesTokens(ret, ",", "");
      assert names + "" == names;
    }
  }

  lemma ReturningIs(ret: seq<string>)
    ensures (if ret != [] then " RETURNING \"" + Join(ret, "\",\"") + "\"" else "") == ReturningPart(ret)
  {
    if ret != [] {
      QuotedJoin(ret);
      SplitReturning(Join(ret, "\",\""));
    }
  }

  lemma AppendReturning(names: string, values: string, r: string)
    ensures "INSERT INTO " + (UsersTable + (" (" + (names + (") VALUES (" + (values + ")"))))) + r ==
            "INSERT INTO " + (UsersTable + (" (" + (names + (") VALUES (" + (values + (")" + r))))))
  {
  }

  lemma InsertTextParts(wl: seq<string>, ret: seq<string>)
    ensures InsertText(wl, ret, ret != []) ==
            if wl == [] then "INSERT INTO " + (UsersTable + (" DEFAULT VALUES" + ReturningPart(ret)))
            else
              var tail := ") VALUES (" + (Placeholders(|wl|) + (")" + ReturningPart(ret)));
              "INSERT INTO " + (UsersTable + (" (" + (Join(Each(Quoted, wl), ",") + tail)))
  {
    ReturningIs(ret);
    if wl == [] {
      InsertedDefaults(ReturningPart(ret));
    } else {
      QuotedJoin(wl);
      SplitColumns(Join(wl, "\",\""), Placeholders(|wl|));
      AppendReturning(Join(Each(Quoted, wl), ","), Placeholders(|wl|), ReturningPart(ret));
    }
  }

  lemma InsertedDefaults(r: string)
    ensures "INSERT INTO " + UsersTable + " DEFAULT VALUES" + r ==
            "INSERT INTO " + (UsersTable + (" DEFAULT VALUES" + r))
  {
  }

  lemma SplitReturning(names: string)
    ensures " RETURNING \"" + names + "\"" == " RETURNING " + ("\"" + names + "\"")
  {
    assert " RETURNING \"" == " RETURNING " + "\"";
  }

  lemma SplitColumns(names: string, values: string)
    ensures "INSERT INTO " + UsersTable + " (\"" + names + "\") VALUES (" + values + ")" ==
            "INSERT INTO " + (UsersTable + (" (" + (("\"" + names + "\"") + (") VALUES (" + (values + ")")))))
  {
    assert " (\"" == " (" + "\"" && "\") VALUES (" == "\"" + ") VALUES (";
  }

  lemma ValuesTokens(n: nat, rest: string)
    ensures Tokens(") VALUES (" + (Placeholders(n) + (")" + rest))) == Params(n) + Tokens(rest)
  {
    SkipValues(Placeholders(n) + (")" + rest));
    PlaceholdersTokens(n, ")" + rest);
    SkipClosing(rest);
  }

  lemma ListedTokens(wl: seq<string>, sep: string, rest: string)
    requires Namable(wl) && IsPlain(sep) && sep != "" && Free(sep)
    ensures Tokens(Join(Each(Quoted, wl), sep) + (") VALUES (" + (Placeholders(|wl|) + (")" + rest)))) ==
            Idents(wl) + Params(|wl|) + Tokens(rest)
  {
    NamesTokens(wl, sep, ") VALUES (" + (Placeholders(|wl|) + (")" + rest)));
    ValuesTokens(|wl|, rest);
  }

  lemma IntoTokens(rest: string)
    ensures Tokens("INSERT INTO " + (UsersTable + rest)) == TableIdents + Tokens(rest)
  {
    SkipInsert(UsersTable + rest);
    TableTokens(rest);
  }

  lemma WithColumnsTokens(wl: seq<string>, returning: string)
    requires Namable(wl)
    ensures var tail := ") VALUES (" + (Placeholders(|wl|) + (")" + returning));
            Tokens("INSERT INTO " + (UsersTable + (" (" + (Join(Each(Quoted, wl), ",") + tail)))) ==
            TableIdents + (Idents(wl) + Params(|wl|) + Tokens(returning))
  {
    var listed := Join(Each(Quoted, wl), ",") + (") VALUES (" + (Placeholders(|wl|) + (")" + returning)));
    ListedTokens(wl, ",", returning);
    SkipOpening(listed);
    IntoTokens(" (" + listed);
  }

  lemma WithDefaultsTokens(returning: string)
    ensures Tokens("INSERT INTO " + (UsersTable + (" DEFAULT VALUES" + returning))) == TableIdents + Tokens(returning)
  {
    SkipDefaults(returning);
    IntoTokens(" DEFAULT VALUES" + returning);
  }

  lemma Grouped(a: seq<Token>, b: seq<Token>, c: seq<Token>, d: seq<Token>)
    ensures a + (b + c + d) == a + b + c + d
  {
  }

  /** An insert gives its columns, as many parameters in their order, and the columns it returns. */
  lemma InsertReads(wl: seq<string>, ret: seq<string>)
    requires Namable(wl) && Namable(ret)
    ensures Tokens(InsertText(wl, ret, ret != [])) == TableIdents + Idents(wl) + Params(|wl|) + Idents(ret)
  {
    InsertTextParts(wl, ret);
    ReturningTokens(ret);
    if wl == [] {
      WithDefaultsTokens(ReturningPart(ret));
      assert Idents(wl) == [] && Params(|wl|) == [];
    } else {
      WithColumnsTokens(wl, ReturningPart(ret));
    }
    Grouped(TableIdents, Idents(wl), Params(|wl|), Idents(ret));
  }

  /** "name" = EXCLUDED."name" */
  lemma ReadsAssignment(name: string)
    requires '"' !in name
    ensures Reads(Assignment(Quoted, name), [Ident(name), Ident(name)])
  {
    forall x: string | Free(x)
      ensures Tokens(Assignment(Quoted, name) + x) == [Ident(name), Ident(name)] + Tokens(x)
    {
      var rest := Quoted(name) + x;
      QuotedTokensOf(name, " = EXCLUDED." + rest);
      SkipExcluded(rest);
      QuotedTokensOf(name, x);
      assert Assignment(Quoted, name) + x == Quoted(name) + (" = EXCLUDED." + rest);
    }
  }

  lemma AssignmentsTokens(names: seq<string>, x: string)
    requires Namable(names) && Free(x)
    ensures Tokens(Join(Assignments(Quoted, names), ",") + x) == Doubled(names) + Tokens(x)
  {
    var tokens := seq(|names|, i requires 0 <= i < |names| => [Ident(names[i]), Ident(names[i])]);
    forall i | 0 <= i < |names|
      ensures Reads(Assignments(Quoted, names)[i], tokens[i])
    {
      ReadsAssignment(names[i]);
    }
    JoinTokens(Assignments(Quoted, names), tokens, ",", x);
    forall i | 0 <= i < |tokens|
      ensures tokens[i] == [Doubled(names)[2 * i], Doubled(names)[2 * i + 1]]
    {
      assert (2 * i) / 2 == i && (2 * i + 1) / 2 == i;
    }
    FlatPairs(tokens, Doubled(names));
  }

  lemma ColumnsIs(wl: seq<string>, x: string)
    requires wl != []
    ensures ColumnsText(Quoted, wl) + x ==
            "(" + (Join(Each(Quoted, wl), ", ") + (") VALUES (" + (Placeholders(|wl|) + (")" + x))))
  {
  }

  lemma ColumnsTokens(wl: seq<string>, x: string)
    requires Namable(wl)
    ensures Tokens(ColumnsText(Quoted, wl) + x) == Idents(wl) + Params(|wl|) + Tokens(x)
  {
    if wl == [] {
      SkipDefaultValues(x);
      assert Idents(wl) == [] && Params(|wl|) == [];
    } else {
      ColumnsIs(wl, x);
      SkipBracket(Join(Each(Quoted, wl), ", ") + (") VALUES (" + (Placeholders(|wl|) + (")" + x))));
      ListedTokens(wl, ", ", x);
    }
  }

  lemma TargetTokens(conflict: seq<string>, x: string)
    requires Namable(conflict)
    ensures Tokens(TargetText(Quoted, conflict, NoOptions) + x) == Idents(conflict) + Tokens(x)
  {
    if conflict == [] {
      assert "" + x == x;
    } else {
      var names := Join(Each(Quoted, conflict), ", ");
      assert TargetText(Quoted, conflict, NoOptions) + x == "(" + (names + (")" + x));
      SkipBracket(names + (")" + x));
      NamesTokens(conflict, ", ", ")" + x);
      SkipClosing(x);
    }
  }

  lemma ActionIs(updateOnConflict: bool, update: seq<string>)
    requires forall i :: 0 <= i < |update| ==> update[i] != ""
    ensures ActionText(Quoted, updateOnConflict, update, NoOptions) ==
            if !updateOnConflict || update == [] then "DO NOTHING"
            else "DO UPDATE SET " + Join(Assignments(Quoted, update), ",")
  {
    AllNonEmpty(update);
    SetListIsJoin(Quoted, update);
  }

  lemma ResolvingTokens(update: seq<string>, x: string)
    requires Namable(update) && Free(x)
    ensures Tokens("DO UPDATE SET " + Join(Assignments(Quoted, update), ",") + x) == Doubled(update) + Tokens(x)
  {
    var list := Join(Assignments(Quoted, update), ",");
    AssignmentsTokens(update, x);
    SkipUpdateSet(list + x);
    Regroup("DO UPDATE SET ", list, x);
  }

  lemma ActionTokens(updateOnConflict: bool, update: seq<string>, x: string)
    requires Namable(update) && Free(x) && forall i :: 0 <= i < |update| ==> update[i] != ""
    ensures Tokens(ActionText(Quoted, updateOnConflict, update, NoOptions) + x) ==
            (if updateOnConflict then Doubled(update) else []) + Tokens(x)
  {
    ActionIs(updateOnConflict, update);
    if !updateOnConflict || update == [] {
      SkipNothing(x);
      assert Doubled([]) == [] && [] + Tokens(x) == Tokens(x);
    } else {
      ResolvingTokens(update, x);
    }
  }

  lemma UpsertReturningTokens(ret: seq<string>)
    requires Namable(ret)
    ensures Free(ReturningText(Quoted, ret)) && Tokens(ReturningText(Quoted, ret)) == Idents(ret)
  {
    if ret != [] {
      var names := Join(Each(Quoted, ret), ", ");
      SkipReturning(names);
      NamesTokens(ret, ", ", "");
      assert names + "" == names;
    }
  }

  lemma {:induction false} AllNonEmpty(names: seq<string>)
    requires forall i :: 0 <= i < |names| ==> names[i] != ""
    ensures NonEmpty(names) == names
    decreases |names|
  {
    if names != [] {
      AllNonEmpty(names[..|names| - 1]);
      assert names == names[..|names| - 1] + [names[|names| - 1]];
    }
  }

  lemma UpsertTextSplit(columns: string, target: string, action: string, returning: string)
    ensures var clause := target + (" " + (action + returning));
            ("INSERT INTO " + UsersTable + " " + columns + " ON CONFLICT ") + (target + " " + action) + returning ==
            "INSERT INTO " + (UsersTable + (" " + (columns + (" ON CONFLICT " + clause))))
  {
  }

  /** The conflict clause and what follows it. */
  lemma ClauseTokens(updateOnConflict: bool, update: seq<string>, conflict: seq<string>, x: string)
    requires Namable(update) && Namable(conflict) && Free(x) && forall i :: 0 <= i < |update| ==> update[i] != ""
    ensures Tokens(TargetText(Quoted, conflict, NoOptions)
                   + (" " + (ActionText(Quoted, updateOnConflict, update, NoOptions) + x))) ==
            Idents(conflict) + ((if updateOnConflict then Doubled(update) else []) + Tokens(x))
  {
    var action := ActionText(Quoted, updateOnConflict, update, NoOptions);
    ActionTokens(updateOnConflict, update, x);
    SkipSpace(action + x);
    TargetTokens(conflict, " " + (action + x));
  }

  lemma AssembledTokens(wl: seq<string>, clause: string)
    requires Namable(wl)
    ensures Tokens("INSERT INTO " + (UsersTable + (" " + (ColumnsText(Quoted, wl) + (" ON CONFLICT " + clause))))) ==
            TableIdents + (Idents(wl) + Params(|wl|) + Tokens(clause))
  {
    var columns := ColumnsText(Quoted, wl);
    SkipConflict(clause);
    ColumnsTokens(wl, " ON CONFLICT " + clause);
    SkipSpace(columns + (" ON CONFLICT " + clause));
    IntoTokens(" " + (columns + (" ON CONFLICT " + clause)));
  }

  lemma SixGrouped(a: seq<Token>, b: seq<Token>, c: seq<Token>, d: seq<Token>, e: seq<Token>, f: seq<Token>)
    ensures a + (b + c + (d + (e + f))) == a + b + c + d + e + f
  {
  }

  lemma UpsertIs(updateOnConflict: bool, ret: seq<string>, update: seq<string>, conflict: seq<string>,
                 wl: seq<string>, opts: seq<UpsertOption>)
    requires Effective(opts) == NoOptions
    ensures var action := ActionText(Quoted, updateOnConflict, update, NoOptions);
            var clause := TargetText(Quoted, conflict, NoOptions) + (" " + (action + ReturningText(Quoted, ret)));
            UpsertText(Quoted, UsersTable, updateOnConflict, ret, update, conflict, wl, opts) ==
            "INSERT INTO " + (UsersTable + (" " + (ColumnsText(Quoted, wl) + (" ON CONFLICT " + clause))))
  {
    UpsertTextParts(Quoted, UsersTable, updateOnConflict, ret, update, conflict, wl, opts);
    UpsertTextSplit(ColumnsText(Quoted, wl), TargetText(Quoted, conflict, NoOptions),
                    ActionText(Quoted, updateOnConflict, update, NoOptions), ReturningText(Quoted, ret));
  }

  /**
   An upsert without options gives its insert columns, as many parameters in their order, the columns in conflict, each
   update column twice if conflicts are to be resolved, and the columns it returns.
   */
  lemma UpsertReads(updateOnConflict: bool, ret: seq<string>, update: seq<string>, conflict: seq<string>,
                    wl: seq<string>, opts: seq<UpsertOption>)
    requires Namable(ret) && Namable(update) && Namable(conflict) && Namable(wl)
    requires Effective(opts) == NoOptions && forall i :: 0 <= i < |update| ==> update[i] != ""
    ensures Tokens(UpsertText(Quoted, UsersTable, updateOnConflict, ret, update, conflict, wl, opts)) ==
            TableIdents + Idents(wl) + Params(|wl|) + Idents(conflict)
            + (if updateOnConflict then Doubled(update) else []) + Idents(ret)
  {
    var returning := ReturningText(Quoted, ret);
    UpsertIs(updateOnConflict, ret, update, conflict, wl, opts);
    UpsertReturningTokens(ret);
    ClauseTokens(updateOnConflict, update, conflict, returning);
    AssembledTokens(wl, TargetText(Quoted, conflict, NoOptions)
                        + (" " + (ActionText(Quoted, updateOnConflict, update, NoOptions) + returning)));
    SixGrouped(TableIdents, Idents(wl), Params(|wl|), Idents(conflict),
               if updateOnConflict then Doubled(update) else [], Idents(ret));
  }

  /** The names of the table's columns have no quotes and are not empty. */
  lemma ColumnsNamable(names: seq<string>)
    requires RealColumns(names)
    ensures Namable(names) && forall i :: 0 <= i < |names| ==> names[i] != ""
  {
    forall i | 0 <= i < |names|
      ensures '"' !in names[i] && names[i] != ""
    {
      var c: Column :| c.Name() == names[i];
      NameUnquoted(c);
    }
  }

  lemma NameUnquoted(c: Column)
    ensures '"' !in c.Name() && c.Name() != ""
  {
  }
}
